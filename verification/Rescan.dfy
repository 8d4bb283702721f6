/**
 * Merging the same scan a second time: exactly when every host settles on the row it settled on
 * the first time, and that nothing but timestamps then moves.
 */
module Rescan {
  import opened Wrappers
  import opened Sequences
  import opened Records
  import opened Inventory
  import opened InventoryView

  // ---------------------------------------------------------------- settled hosts

  /** The row is the one this host resolves to. */
  predicate Settled(rows: seq<DeviceRow>, host: ParsedHost, at: nat) {
    at < |rows| && KeyOf(rows[at]) == HostKey(host)
  }

  predicate Carries(rows: seq<DeviceRow>, mac: Text) {
    exists i :: 0 <= i < |rows| && rows[i].mac == Some(mac)
  }

  lemma SettledResolves(rows: seq<DeviceRow>, host: ParsedHost, at: nat)
    requires Identified(rows) && Settled(rows, host, at)
    ensures Resolve(rows, host) == Some(at)
  {
    ResolveByKey(rows, host);
  }

  lemma UpsertSettles(rows: seq<DeviceRow>, s: Sighting)
    ensures Settled(UpsertDevice(rows, s), s.host, Place(rows, s.host))
  {
    ResolveByKey(rows, s.host);
  }

  /** Only an unseen MAC at the address of a settled MAC-less host unsettles it. */
  lemma StaysSettled(rows: seq<DeviceRow>, host: ParsedHost, at: nat, s: Sighting)
    requires Identified(rows) && Settled(rows, host, at)
    requires host.mac.Some? || s.host.ip != host.ip || s.host.mac.None? || Carries(rows, s.host.mac.value)
    ensures Settled(UpsertDevice(rows, s), host, at)
  {
    ResolveByKey(rows, s.host);
    if s.host.mac.Some? && Carries(rows, s.host.mac.value) {
      var i :| 0 <= i < |rows| && rows[i].mac == s.host.mac;
      assert KeyOf(rows[i]) == Mac(s.host.mac.value);
    }
  }

  lemma UpsertCarries(rows: seq<DeviceRow>, s: Sighting, mac: Text)
    ensures Carries(UpsertDevice(rows, s), mac) <==> Carries(rows, mac) || s.host.mac == Some(mac)
  {
    var next, at := UpsertDevice(rows, s), Place(rows, s.host);
    ResolveByKey(rows, s.host);
    assert next[at].mac == if s.host.mac.Some? then s.host.mac else if at < |rows| then rows[at].mac else None;
    if i :| 0 <= i < |rows| && rows[i].mac == Some(mac) {
      assert KeyOf(rows[i]) == Mac(mac);
      assert next[i].mac == Some(mac);
    }
  }

  predicate Mentions(scan: seq<Sighting>, mac: Text) {
    exists k :: 0 <= k < |scan| && scan[k].host.mac == Some(mac)
  }

  lemma MentionsLast(scan: seq<Sighting>, mac: Text)
    requires scan != []
    ensures Mentions(scan, mac) <==> Mentions(scan[..|scan| - 1], mac) || scan[|scan| - 1].host.mac == Some(mac)
  {
    assert forall k :: 0 <= k < |scan| - 1 ==> scan[..|scan| - 1][k] == scan[k];
  }

  lemma {:induction false} MergeCarries(t: Table, scan: seq<Sighting>, mac: Text)
    ensures Carries(MergeAll(t, scan).table.devices, mac) <==> Carries(t.devices, mac) || Mentions(scan, mac)
  {
    if scan != [] {
      var n := |scan| - 1;
      MergeCarries(t, scan[..n], mac);
      UpsertCarries(MergeAll(t, scan[..n]).table.devices, scan[n], mac);
      MentionsLast(scan, mac);
    }
  }

  lemma {:induction false} MergeKeepsIdentified(t: Table, scan: seq<Sighting>)
    requires Identified(t.devices)
    ensures Identified(MergeAll(t, scan).table.devices)
  {
    if scan != [] {
      MergeKeepsIdentified(t, scan[..|scan| - 1]);
      UpsertKeepsIdentified(MergeAll(t, scan[..|scan| - 1]).table.devices, scan[|scan| - 1]);
    }
  }

  // ---------------------------------------------------------------- the exact condition

  /** Host `j` has a MAC that neither the table nor an earlier host of the scan has shown. */
  predicate FirstSeenMac(t: Table, scan: seq<Sighting>, j: nat)
    requires j < |scan|
  {
    scan[j].host.mac.Some? && !Carries(t.devices, scan[j].host.mac.value) && !Mentions(scan[..j], scan[j].host.mac.value)
  }

  /** Host `j` takes over the row of the earlier MAC-less host `i` at its address. */
  predicate Adopts(t: Table, scan: seq<Sighting>, i: nat, j: nat)
    requires i < j < |scan|
  {
    scan[i].host.mac.None? && scan[i].host.ip == scan[j].host.ip && FirstSeenMac(t, scan, j)
  }

  /**
   * No host of the scan adopts the row of another. Distinct addresses are enough, and so are
   * MACs the table already knows.
   */
  predicate NoAdoption(t: Table, scan: seq<Sighting>) {
    forall i, j :: 0 <= i < j < |scan| ==> !Adopts(t, scan, i, j)
  }

  lemma DistinctAddressesSuffice(t: Table, scan: seq<Sighting>)
    requires forall i, j :: 0 <= i < j < |scan| ==> scan[i].host.ip != scan[j].host.ip
    ensures NoAdoption(t, scan)
  {
  }

  lemma AdoptionInPrefix(t: Table, scan: seq<Sighting>, n: nat)
    requires n <= |scan|
    ensures forall i, j :: 0 <= i < j < n ==> (Adopts(t, scan[..n], i, j) <==> Adopts(t, scan, i, j))
  {
    forall i, j | 0 <= i < j < n ensures Adopts(t, scan[..n], i, j) <==> Adopts(t, scan, i, j) {
      assert scan[..n][..j] == scan[..j];
    }
  }

  lemma SettledThroughLast(t: Table, scan: seq<Sighting>, k: nat)
    requires Identified(t.devices) && k < |scan| - 1 && !Adopts(t, scan, k, |scan| - 1)
    requires var before := MergeAll(t, scan[..|scan| - 1]); Settled(before.table.devices, scan[k].host, before.at[k])
    ensures Settled(MergeAll(t, scan).table.devices, scan[k].host, MergeAll(t, scan[..|scan| - 1]).at[k])
  {
    var n := |scan| - 1;
    var before, last := MergeAll(t, scan[..n]), scan[n];
    MergeKeepsIdentified(t, scan[..n]);
    if last.host.mac.Some? {
      MergeCarries(t, scan[..n], last.host.mac.value);
    }
    StaysSettled(before.table.devices, scan[k].host, before.at[k], last);
  }

  /** After a scan without adoption every host of it is still settled where it was merged. */
  lemma {:induction false} AllSettled(t: Table, scan: seq<Sighting>)
    requires Identified(t.devices) && NoAdoption(t, scan)
    ensures forall k :: 0 <= k < |scan| ==> Settled(MergeAll(t, scan).table.devices, scan[k].host, MergeAll(t, scan).at[k])
  {
    if scan != [] {
      var n := |scan| - 1;
      var before, last := MergeAll(t, scan[..n]), scan[n];
      AdoptionInPrefix(t, scan, n);
      AllSettled(t, scan[..n]);
      MergeKeepsIdentified(t, scan[..n]);
      UpsertSettles(before.table.devices, last);
      forall k | 0 <= k < n ensures Settled(MergeAll(t, scan).table.devices, scan[k].host, before.at[k]) {
        assert scan[..n][k] == scan[k];
        SettledThroughLast(t, scan, k);
      }
    }
  }

  predicate SameHosts(a: seq<Sighting>, b: seq<Sighting>) {
    |a| == |b| && forall k :: 0 <= k < |a| ==> a[k].host == b[k].host
  }

  /** Every host of the scan is settled and every MAC of it known. */
  predicate Known(t: Table, scan: seq<Sighting>, at: seq<nat>) {
    && |at| == |scan|
    && Identified(t.devices)
    && (forall k :: 0 <= k < |scan| ==> Settled(t.devices, scan[k].host, at[k]))
    && (forall k :: 0 <= k < |scan| && scan[k].host.mac.Some? ==> Carries(t.devices, scan[k].host.mac.value))
  }

  lemma KnownAfterHost(t: Table, scan: seq<Sighting>, at: seq<nat>, k: nat)
    requires Known(t, scan, at) && k < |scan|
    ensures Place(t.devices, scan[k].host) == at[k]
    ensures Known(Upsert(t, scan[k]), scan, at)
    ensures |Upsert(t, scan[k]).devices| == |t.devices|
  {
    SettledResolves(t.devices, scan[k].host, at[k]);
    UpsertKeepsIdentified(t.devices, scan[k]);
    forall j | 0 <= j < |scan| ensures Settled(Upsert(t, scan[k]).devices, scan[j].host, at[j]) {
      StaysSettled(t.devices, scan[j].host, at[j], scan[k]);
    }
    forall j | 0 <= j < |scan| && scan[j].host.mac.Some? ensures Carries(Upsert(t, scan[k]).devices, scan[j].host.mac.value) {
      UpsertCarries(t.devices, scan[k], scan[j].host.mac.value);
    }
  }

  lemma {:induction false} KnownScanCreatesNothing(t: Table, scan: seq<Sighting>, at: seq<nat>, n: nat)
    requires Known(t, scan, at) && n <= |scan|
    ensures Known(MergeAll(t, scan[..n]).table, scan, at)
    ensures MergeAll(t, scan[..n]).at == at[..n]
    ensures |MergeAll(t, scan[..n]).table.devices| == |t.devices|
  {
    if n > 0 {
      KnownScanCreatesNothing(t, scan, at, n - 1);
      var before := MergeAll(t, scan[..n - 1]);
      KnownAfterHost(before.table, scan, at, n - 1);
      MergeOneMoreSighting(t, scan[..n - 1], scan[n - 1]);
      OneMore(scan, n - 1);
      OneMore(at, n - 1);
    }
  }

  lemma SameHostsKnown(t: Table, a: seq<Sighting>, b: seq<Sighting>, at: seq<nat>)
    requires SameHosts(a, b) && Known(t, a, at)
    ensures Known(t, b, at)
  {
  }

  lemma FirstScanIsKnown(t: Table, scan: seq<Sighting>)
    requires Identified(t.devices) && NoAdoption(t, scan)
    ensures Known(MergeAll(t, scan).table, scan, MergeAll(t, scan).at)
  {
    AllSettled(t, scan);
    MergeKeepsIdentified(t, scan);
    forall k | 0 <= k < |scan| && scan[k].host.mac.Some?
      ensures Carries(MergeAll(t, scan).table.devices, scan[k].host.mac.value)
    {
      MergeCarries(t, scan, scan[k].host.mac.value);
    }
  }

  // ---------------------------------------------------------------- and its converse

  lemma MacStays(rows: seq<DeviceRow>, s: Sighting, at: nat)
    requires at < |rows| && rows[at].mac.Some?
    ensures UpsertDevice(rows, s)[at].mac.Some?
    ensures s.host.mac.None? ==> Place(rows, s.host) != at
  {
    ResolveByKey(rows, s.host);
  }

  lemma {:induction false} MacsStay(t: Table, scan: seq<Sighting>, at: nat)
    requires at < |t.devices| && t.devices[at].mac.Some?
    ensures MergeAll(t, scan).table.devices[at].mac.Some?
    ensures forall k :: 0 <= k < |scan| && scan[k].host.mac.None? ==> MergeAll(t, scan).at[k] != at
  {
    if scan != [] {
      var rest, last := scan[..|scan| - 1], scan[|scan| - 1];
      MacsStay(t, rest, at);
      MacStays(MergeAll(t, rest).table.devices, last, at);
    }
  }

  lemma {:induction false} MergeInTwo(t: Table, a: seq<Sighting>, b: seq<Sighting>)
    ensures var first := MergeAll(t, a);
      var second := MergeAll(first.table, b);
      MergeAll(t, a + b) == Merged(second.table, first.at + second.at, first.created + second.created)
  {
    if b == [] {
      assert a + b == a;
    } else {
      var rest, last, first := b[..|b| - 1], b[|b| - 1], MergeAll(t, a);
      InitLast(b);
      Associative(a, rest, [last]);
      MergeInTwo(t, a, rest);
      MergeOneMoreSighting(t, a + rest, last);
      MergeOneMoreSighting(first.table, rest, last);
      var second := MergeAll(first.table, rest);
      Associative(first.at, second.at, [Place(second.table.devices, last.host)]);
    }
  }

  lemma UnseenMacAdopts(rows: seq<DeviceRow>, host: ParsedHost, at: nat, s: Sighting)
    requires Identified(rows) && Settled(rows, host, at) && host.mac.None?
    requires s.host.ip == host.ip && s.host.mac.Some? && !Carries(rows, s.host.mac.value)
    ensures Place(rows, s.host) == at && UpsertDevice(rows, s)[at].mac.Some?
  {
    ResolveByKey(rows, s.host);
    assert KeyOf(rows[at]) == Addr(s.host.ip);
  }

  lemma AdoptedByLast(t: Table, first: seq<Sighting>, i: nat, s: Sighting)
    requires Identified(t.devices) && NoAdoption(t, first)
    requires i < |first| && first[i].host.mac.None? && s.host.ip == first[i].host.ip
    requires s.host.mac.Some? && !Carries(t.devices, s.host.mac.value) && !Mentions(first, s.host.mac.value)
    ensures var upTo := MergeAll(t, first + [s]);
      upTo.at[i] == MergeAll(t, first).at[i] && upTo.table.devices[upTo.at[i]].mac.Some?
  {
    var before := MergeAll(t, first);
    AllSettled(t, first);
    MergeKeepsIdentified(t, first);
    MergeCarries(t, first, s.host.mac.value);
    UnseenMacAdopts(before.table.devices, first[i].host, before.at[i], s);
    assert (first + [s])[..|first|] == first;
  }

  /** The first adoption of a scan leaves the adopted row with a MAC. */
  lemma AdoptedRowHasMac(t: Table, first: seq<Sighting>, i: nat, s: Sighting, rest: seq<Sighting>)
    requires Identified(t.devices) && NoAdoption(t, first)
    requires i < |first| && first[i].host.mac.None? && s.host.ip == first[i].host.ip
    requires s.host.mac.Some? && !Carries(t.devices, s.host.mac.value) && !Mentions(first, s.host.mac.value)
    ensures var merged := MergeAll(t, first + [s] + rest);
      merged.table.devices[merged.at[i]].mac.Some?
  {
    var upTo := MergeAll(t, first + [s]);
    AdoptedByLast(t, first, i, s);
    MacsStay(upTo.table, rest, upTo.at[i]);
    MergeInTwo(t, first + [s], rest);
  }

  lemma {:induction false} FirstAdoption(t: Table, scan: seq<Sighting>) returns (i: nat, j: nat)
    requires !NoAdoption(t, scan)
    ensures i < j < |scan| && Adopts(t, scan, i, j) && NoAdoption(t, scan[..j])
  {
    i, j :| 0 <= i < j < |scan| && Adopts(t, scan, i, j);
    if !NoAdoption(t, scan[..j]) {
      AdoptionInPrefix(t, scan, j);
      var n := j;
      i, j := FirstAdoption(t, scan[..n]);
      assert scan[..n][..j] == scan[..j];
    }
  }

  lemma WithoutAdoptionAlike(t: Table, scan: seq<Sighting>, again: seq<Sighting>)
    requires Identified(t.devices) && SameHosts(scan, again) && NoAdoption(t, scan)
    ensures var one := MergeAll(t, scan);
      var two := MergeAll(one.table, again);
      two.at == one.at && two.created == 0 && |two.table.devices| == |one.table.devices|
  {
    var one := MergeAll(t, scan);
    FirstScanIsKnown(t, scan);
    SameHostsKnown(one.table, scan, again, one.at);
    KnownScanCreatesNothing(one.table, again, one.at, |again|);
    assert again[..|again|] == again && one.at[..|again|] == one.at;
  }

  lemma AdoptionResolvesElsewhere(t: Table, scan: seq<Sighting>, again: seq<Sighting>)
    requires Identified(t.devices) && SameHosts(scan, again) && !NoAdoption(t, scan)
    ensures MergeAll(MergeAll(t, scan).table, again).at != MergeAll(t, scan).at
  {
    var one := MergeAll(t, scan);
    var i, j := FirstAdoption(t, scan);
    AdoptedRowHasMac(t, scan[..j], i, scan[j], scan[j + 1..]);
    Around(scan, j);
    MacsStay(one.table, again, one.at[i]);
    assert again[i].host.mac.None?;
  }

  /**
   * Scanning again resolves every host to the same device exactly when no host of the scan
   * adopts another's row; nothing is created then.
   */
  lemma RescanResolvesAlikeIff(t: Table, scan: seq<Sighting>, again: seq<Sighting>)
    requires Identified(t.devices) && SameHosts(scan, again)
    ensures var one := MergeAll(t, scan);
      var two := MergeAll(one.table, again);
      && (two.at == one.at <==> NoAdoption(t, scan))
      && (NoAdoption(t, scan) ==> two.created == 0 && |two.table.devices| == |one.table.devices|)
  {
    if NoAdoption(t, scan) {
      WithoutAdoptionAlike(t, scan, again);
    } else {
      AdoptionResolvesElsewhere(t, scan, again);
    }
  }

  /** A MAC-less host followed by an unseen MAC at its address is created again by every other scan. */
  lemma AdoptionExample() returns (scan: seq<Sighting>)
    ensures |MergeAll(Table([], []), scan).table.devices| == 1
    ensures MergeAll(MergeAll(Table([], []), scan).table, scan).created == 1
  {
    var bare := Sighting(ParsedHost("10.0.0.5", None, None, None, true, []), 1, 1);
    var seen := Sighting(ParsedHost("10.0.0.5", Some("aa:00:00:00:00:01"), None, None, true, []), 2, 2);
    scan := [bare, seen];
    var t := Table([], []);
    assert scan[..1] == [bare];
    assert [bare][..0] == [];
    var first := Refresh(NewRow(1, bare), bare);
    assert MergeAll(t, [bare]).table.devices == [first];
    var adopted := Refresh(first, seen);
    assert Resolve([first], seen.host) == Some(0);
    assert MergeAll(t, scan).table.devices == [adopted];
    var one := MergeAll(t, scan).table;
    assert Resolve([adopted], bare.host) == None;
    var another := Refresh(NewRow(2, bare), bare);
    assert MergeAll(one, [bare]).table.devices == [adopted, another];
    assert Resolve([adopted, another], seen.host) == Some(0);
  }

  // ---------------------------------------------------------------- device fields

  /** A row but for the time it was last seen. */
  function Content(row: DeviceRow): DeviceRow {
    row.(lastSeen := 0)
  }

  /** What the hosts of a scan that settled on one row wrote to it, later over earlier. */
  datatype Patch = Untouched | Patch(ip: string, mac: Option<Text>, vendor: Option<Text>, hostname: Option<Text>)

  function Or<T>(a: Option<T>, b: Option<T>): Option<T> {
    if a.Some? then a else b
  }

  function ThenHost(p: Patch, host: ParsedHost): Patch {
    match p
    case Untouched => Patch(host.ip, host.mac, host.vendor, host.hostname)
    case Patch(_, mac, vendor, hostname) =>
      Patch(host.ip, Or(host.mac, mac), Or(host.vendor, vendor), Or(host.hostname, hostname))
  }

  function PatchFor(scan: seq<Sighting>, at: seq<nat>, row: nat): Patch
    requires |at| == |scan|
  {
    if scan == [] then Untouched
    else
      var n := |scan| - 1;
      var before := PatchFor(scan[..n], at[..n], row);
      if at[n] == row then ThenHost(before, scan[n].host) else before
  }

  function ApplyPatch(row: DeviceRow, p: Patch): DeviceRow {
    match p
    case Untouched => row
    case Patch(ip, mac, vendor, hostname) =>
      row.(ip := ip, mac := Or(mac, row.mac), vendor := Or(vendor, row.vendor), hostname := Or(hostname, row.hostname),
           status := Online, isDeleted := false, deletedAt := if row.isDeleted then None else row.deletedAt)
  }

  lemma RefreshIsPatch(row: DeviceRow, p: Patch, s: Sighting)
    ensures Content(Refresh(row, s)) == ApplyPatch(Content(row), ThenHost(Untouched, s.host))
    ensures ApplyPatch(ApplyPatch(Content(row), p), ThenHost(Untouched, s.host)) == ApplyPatch(Content(row), ThenHost(p, s.host))
    // a row that already shows what `p` wrote shows what `p` and the new host wrote once refreshed
    ensures ApplyPatch(Content(row), p) == Content(row) ==>
      ApplyPatch(Content(Refresh(row, s)), ThenHost(p, s.host)) == Content(Refresh(row, s))
  {
  }

  lemma {:induction false} UnreachedIsUntouched(scan: seq<Sighting>, at: seq<nat>, row: nat)
    requires |at| == |scan| && row !in at
    ensures PatchFor(scan, at, row) == Untouched
  {
    if scan != [] {
      var n := |scan| - 1;
      assert at[n] in at;
      UnreachedIsUntouched(scan[..n], at[..n], row);
    }
  }

  /** After a scan every row shows what the scan wrote to it: writing it again changes nothing. */
  lemma {:induction false} ScanIsAbsorbed(t: Table, scan: seq<Sighting>, row: nat)
    requires row < |MergeAll(t, scan).table.devices|
    ensures var merged := MergeAll(t, scan);
      ApplyPatch(Content(merged.table.devices[row]), PatchFor(scan, merged.at, row)) == Content(merged.table.devices[row])
  {
    if scan != [] {
      var n := |scan| - 1;
      var before, last := MergeAll(t, scan[..n]), scan[n];
      var at := Place(before.table.devices, last.host);
      assert MergeAll(t, scan).at[..n] == before.at;
      if row < |before.table.devices| {
        ScanIsAbsorbed(t, scan[..n], row);
        if at == row {
          RefreshIsPatch(before.table.devices[row], PatchFor(scan[..n], before.at, row), last);
        }
      } else {
        UnreachedIsUntouched(scan[..n], before.at, row);
        RefreshIsPatch(NewRow(row + 1, last), Untouched, last);
      }
    }
  }

  /** A scan that creates nothing does to each row what its patch says. */
  lemma {:induction false} ScanIsPatch(t: Table, scan: seq<Sighting>, row: nat)
    requires row < |t.devices| && MergeAll(t, scan).created == 0
    ensures var merged := MergeAll(t, scan);
      Content(merged.table.devices[row]) == ApplyPatch(Content(t.devices[row]), PatchFor(scan, merged.at, row))
  {
    if scan != [] {
      var n := |scan| - 1;
      var before := MergeAll(t, scan[..n]);
      assert MergeAll(t, scan).at[..n] == before.at;
      ScanIsPatch(t, scan[..n], row);
      if MergeAll(t, scan).at[n] == row {
        RefreshIsPatch(before.table.devices[row], Untouched, scan[n]);
        RefreshIsPatch(t.devices[row], PatchFor(scan[..n], before.at, row), scan[n]);
      }
    }
  }

  lemma {:induction false} SameHostsSamePatch(a: seq<Sighting>, b: seq<Sighting>, at: seq<nat>, row: nat)
    requires SameHosts(a, b) && |at| == |a|
    ensures PatchFor(a, at, row) == PatchFor(b, at, row)
  {
    if a != [] {
      SameHostsSamePatch(a[..|a| - 1], b[..|b| - 1], at[..|a| - 1], row);
    }
  }

  // ---------------------------------------------------------------- port rows

  /** One port of one host, as the scan wrote it to the port table. */
  datatype Report = Report(deviceId: nat, found: ParsedPort, now: int)

  function HostReports(deviceId: nat, found: seq<ParsedPort>, now: int): (r: seq<Report>)
    ensures |r| == |found|
    ensures forall i :: 0 <= i < |r| ==> r[i] == Report(deviceId, found[i], now)
  {
    if found == [] then []
    else HostReports(deviceId, found[..|found| - 1], now) + [Report(deviceId, found[|found| - 1], now)]
  }

  function Reports(scan: seq<Sighting>, at: seq<nat>): seq<Report>
    requires |at| == |scan|
  {
    if scan == [] then []
    else
      var n := |scan| - 1;
      Reports(scan[..n], at[..n]) + HostReports(at[n] + 1, scan[n].host.ports, scan[n].portsAt)
  }

  function Record(ports: seq<PortRow>, reports: seq<Report>): seq<PortRow> {
    if reports == [] then ports
    else
      var before, r := Record(ports, reports[..|reports| - 1]), reports[|reports| - 1];
      SyncPort(before, before, r.deviceId, r.found, r.now)
  }

  lemma {:induction false} RecordInTwo(ports: seq<PortRow>, a: seq<Report>, b: seq<Report>)
    ensures Record(ports, a + b) == Record(Record(ports, a), b)
  {
    if b == [] {
      assert a + b == a;
    } else {
      assert (a + b)[..|a + b| - 1] == a + b[..|b| - 1];
      RecordInTwo(ports, a, b[..|b| - 1]);
    }
  }

  lemma {:induction false} InTurnIsRecord(ports: seq<PortRow>, deviceId: nat, found: seq<ParsedPort>, now: int)
    ensures SyncInTurn(ports, deviceId, found, now) == Record(ports, HostReports(deviceId, found, now))
    decreases |found|
  {
    if found != [] {
      var reports := HostReports(deviceId, found, now);
      assert reports == [reports[0]] + HostReports(deviceId, found[1..], now);
      assert [reports[0]][..0] == [];
      InTurnIsRecord(SyncPort(ports, ports, deviceId, found[0], now), deviceId, found[1..], now);
      RecordInTwo(ports, [reports[0]], HostReports(deviceId, found[1..], now));
    }
  }

  lemma UpsertIsRecord(t: Table, s: Sighting)
    requires PortsUnique(t.ports) && DistinctPorts(s.host.ports)
    ensures PortsUnique(Upsert(t, s).ports)
    ensures Upsert(t, s).ports == Record(t.ports, HostReports(Place(t.devices, s.host) + 1, s.host.ports, s.portsAt))
  {
    PortsAfterUpsert(t, s);
    UpsertSyncsInTurn(t, s);
    InTurnIsRecord(t.ports, Place(t.devices, s.host) + 1, s.host.ports, s.portsAt);
  }

  lemma {:induction false} MergeKeepsPortsUnique(t: Table, scan: seq<Sighting>)
    requires PortsUnique(t.ports) && WellFormed(scan)
    ensures PortsUnique(MergeAll(t, scan).table.ports)
  {
    if scan != [] {
      MergeKeepsPortsUnique(t, scan[..|scan| - 1]);
      UpsertIsRecord(MergeAll(t, scan[..|scan| - 1]).table, scan[|scan| - 1]);
    }
  }

  lemma ReportsOneMore(scan: seq<Sighting>, at: seq<nat>, last: Sighting, row: nat)
    requires |at| == |scan|
    ensures Reports(scan + [last], at + [row]) == Reports(scan, at) + HostReports(row + 1, last.host.ports, last.portsAt)
  {
    assert (scan + [last])[..|scan|] == scan && (at + [row])[..|at|] == at;
  }

  lemma MergeOneMoreRecord(ports: seq<PortRow>, before: Merged, last: Sighting, scan: seq<Sighting>, next: Merged)
    requires |before.at| == |scan| && PortsUnique(before.table.ports) && DistinctPorts(last.host.ports)
    requires before.table.ports == Record(ports, Reports(scan, before.at))
    requires next.table == Upsert(before.table, last) && next.at == before.at + [Place(before.table.devices, last.host)]
    ensures next.table.ports == Record(ports, Reports(scan + [last], next.at))
  {
    var row := Place(before.table.devices, last.host);
    var added := HostReports(row + 1, last.host.ports, last.portsAt);
    assert next.table.ports == Record(before.table.ports, added) by {
      UpsertIsRecord(before.table, last);
    }
    assert Record(before.table.ports, added) == Record(ports, Reports(scan, before.at) + added) by {
      RecordInTwo(ports, Reports(scan, before.at), added);
    }
    ReportsOneMore(scan, before.at, last, row);
  }

  lemma {:induction false} MergeIsRecord(t: Table, scan: seq<Sighting>)
    requires PortsUnique(t.ports) && WellFormed(scan)
    ensures MergeAll(t, scan).table.ports == Record(t.ports, Reports(scan, MergeAll(t, scan).at))
  {
    if scan != [] {
      var rest, last := scan[..|scan| - 1], scan[|scan| - 1];
      MergeIsRecord(t, rest);
      MergeKeepsPortsUnique(t, rest);
      InitLast(scan);
      MergeOneMoreRecord(t.ports, MergeAll(t, rest), last, rest, MergeAll(t, scan));
    }
  }

  function PortContent(row: PortRow): PortRow {
    row.(lastSeen := 0)
  }

  datatype PortPatch = PortUntouched | PortPatch(state: PortState, service: Option<Text>)

  function ThenReport(p: PortPatch, found: ParsedPort): PortPatch {
    match p
    case PortUntouched => PortPatch(found.state, found.service)
    case PortPatch(_, service) => PortPatch(found.state, Or(found.service, service))
  }

  function PortPatchFor(reports: seq<Report>, deviceId: nat, key: PortKey): PortPatch {
    if reports == [] then PortUntouched
    else
      var before, r := PortPatchFor(reports[..|reports| - 1], deviceId, key), reports[|reports| - 1];
      if r.deviceId == deviceId && r.found.key == key then ThenReport(before, r.found) else before
  }

  function ApplyPortPatch(row: PortRow, p: PortPatch): PortRow {
    match p
    case PortUntouched => row
    case PortPatch(state, service) => row.(state := state, service := Or(service, row.service))
  }

  function PatchOf(reports: seq<Report>, row: PortRow): PortPatch {
    PortPatchFor(reports, row.deviceId, row.key)
  }

  lemma {:induction false} UnreportedIsUntouched(reports: seq<Report>, deviceId: nat, key: PortKey)
    requires forall r :: r in reports ==> r.deviceId != deviceId || r.found.key != key
    ensures PortPatchFor(reports, deviceId, key) == PortUntouched
  {
    if reports != [] {
      UnreportedIsUntouched(reports[..|reports| - 1], deviceId, key);
    }
  }

  predicate Reported(ports: seq<PortRow>, r: Report) {
    PortAt(ports, r.deviceId, r.found.key).Some?
  }

  lemma StepKeepsReported(ports: seq<PortRow>, r: Report, other: Report)
    requires Reported(ports, other) || (other.deviceId == r.deviceId && other.found.key == r.found.key)
    ensures Reported(SyncPort(ports, ports, r.deviceId, r.found, r.now), other)
  {
    var next := SyncPort(ports, ports, r.deviceId, r.found, r.now);
    if Reported(ports, other) {
      var i := PortAt(ports, other.deviceId, other.found.key).value;
      assert SamePort(next[i], ports[i]);
    } else {
      assert next[|ports|].deviceId == other.deviceId && next[|ports|].key == other.found.key;
    }
  }

  lemma StepKeepsUnique(ports: seq<PortRow>, r: Report)
    requires PortsUnique(ports)
    ensures PortsUnique(SyncPort(ports, ports, r.deviceId, r.found, r.now))
  {
  }

  predicate Shows(row: PortRow, reports: seq<Report>) {
    ApplyPortPatch(PortContent(row), PatchOf(reports, row)) == PortContent(row)
  }

  lemma StepKeepsShown(before: seq<PortRow>, rest: seq<Report>, r: Report, i: nat)
    requires PortsUnique(before)
    requires forall other :: other in rest ==> Reported(before, other)
    requires forall j :: 0 <= j < |before| ==> Shows(before[j], rest)
    requires i < |SyncPort(before, before, r.deviceId, r.found, r.now)|
    ensures Shows(SyncPort(before, before, r.deviceId, r.found, r.now)[i], rest + [r])
  {
    assert (rest + [r])[..|rest|] == rest;
    var at := PortAt(before, r.deviceId, r.found.key);
    if i == |before| {
      forall other | other in rest ensures other.deviceId != r.deviceId || other.found.key != r.found.key {
        assert Reported(before, other);
      }
      UnreportedIsUntouched(rest, r.deviceId, r.found.key);
    } else {
      assert Shows(before[i], rest);
      if at.Some? && at.value != i {
        assert !SamePort(before[i], before[at.value]);
      }
    }
  }

  /** Every reported port has a row, and every row shows what was reported of it. */
  lemma {:induction false} ReportsAreAbsorbed(ports: seq<PortRow>, reports: seq<Report>)
    requires PortsUnique(ports)
    ensures var after := Record(ports, reports);
      && PortsUnique(after)
      && (forall r :: r in reports ==> Reported(after, r))
      && (forall i :: 0 <= i < |after| ==> Shows(after[i], reports))
  {
    if reports != [] {
      var n := |reports| - 1;
      var rest, r := reports[..n], reports[n];
      assert reports == rest + [r];
      var before := Record(ports, rest);
      ReportsAreAbsorbed(ports, rest);
      StepKeepsUnique(before, r);
      forall other | other in reports ensures Reported(Record(ports, reports), other) {
        StepKeepsReported(before, r, other);
      }
      forall i | 0 <= i < |Record(ports, reports)| ensures Shows(Record(ports, reports)[i], reports) {
        StepKeepsShown(before, rest, r, i);
      }
    }
  }

  /** Reporting ports that all have a row adds no row and does to each what its patch says. */
  lemma {:induction false} ReportsArePatches(ports: seq<PortRow>, reports: seq<Report>)
    requires PortsUnique(ports) && forall r :: r in reports ==> Reported(ports, r)
    ensures var after := Record(ports, reports);
      && |after| == |ports|
      && (forall i :: 0 <= i < |ports| ==>
        SamePort(after[i], ports[i]) && PortContent(after[i]) == ApplyPortPatch(PortContent(ports[i]), PatchOf(reports, ports[i])))
  {
    if reports != [] {
      var n := |reports| - 1;
      var rest, r := reports[..n], reports[n];
      ReportsArePatches(ports, rest);
      var before := Record(ports, rest);
      assert r in reports;
      var i := PortAt(ports, r.deviceId, r.found.key).value;
      assert SamePort(before[i], ports[i]);
      var j := PortAt(before, r.deviceId, r.found.key).value;
      assert SamePort(before[j], ports[j]) && i == j;
    }
  }

  predicate SameReports(a: seq<Report>, b: seq<Report>) {
    |a| == |b| && forall i :: 0 <= i < |a| ==> a[i].deviceId == b[i].deviceId && a[i].found == b[i].found
  }

  lemma SameReportsConcat(a: seq<Report>, b: seq<Report>, c: seq<Report>, d: seq<Report>)
    requires SameReports(a, b) && SameReports(c, d)
    ensures SameReports(a + c, b + d)
  {
  }

  lemma {:induction false} SameHostsSameReports(a: seq<Sighting>, b: seq<Sighting>, at: seq<nat>)
    requires SameHosts(a, b) && |at| == |a|
    ensures SameReports(Reports(a, at), Reports(b, at))
  {
    if a != [] {
      var n := |a| - 1;
      SameHostsSameReports(a[..n], b[..n], at[..n]);
      SameReportsConcat(Reports(a[..n], at[..n]), Reports(b[..n], at[..n]),
                        HostReports(at[n] + 1, a[n].host.ports, a[n].portsAt), HostReports(at[n] + 1, b[n].host.ports, b[n].portsAt));
    }
  }

  lemma {:induction false} SameReportsSamePatch(a: seq<Report>, b: seq<Report>, deviceId: nat, key: PortKey)
    requires SameReports(a, b)
    ensures PortPatchFor(a, deviceId, key) == PortPatchFor(b, deviceId, key)
  {
    if a != [] {
      SameReportsSamePatch(a[..|a| - 1], b[..|b| - 1], deviceId, key);
    }
  }

  // ---------------------------------------------------------------- the fixpoint

  /** Two tables with the same rows, whatever the times in `lastSeen`. */
  predicate SameButTimes(a: Table, b: Table) {
    && |a.devices| == |b.devices| && (forall i :: 0 <= i < |a.devices| ==> Content(a.devices[i]) == Content(b.devices[i]))
    && |a.ports| == |b.ports| && (forall i :: 0 <= i < |a.ports| ==> PortContent(a.ports[i]) == PortContent(b.ports[i]))
  }

  lemma SecondScanChangesNoDevice(t: Table, scan: seq<Sighting>, again: seq<Sighting>, row: nat)
    requires Identified(t.devices) && NoAdoption(t, scan) && SameHosts(scan, again)
    requires row < |MergeAll(t, scan).table.devices|
    ensures var one := MergeAll(t, scan);
      var two := MergeAll(one.table, again);
      row < |two.table.devices| && Content(two.table.devices[row]) == Content(one.table.devices[row])
  {
    WithoutAdoptionAlike(t, scan, again);
    var one := MergeAll(t, scan);
    ScanIsAbsorbed(t, scan, row);
    ScanIsPatch(one.table, again, row);
    SameHostsSamePatch(scan, again, one.at, row);
  }

  lemma SecondScanChangesNoPort(t: Table, scan: seq<Sighting>, again: seq<Sighting>)
    requires Consistent(t) && WellFormed(scan) && NoAdoption(t, scan) && SameHosts(scan, again)
    ensures var one := MergeAll(t, scan).table.ports;
      var two := MergeAll(MergeAll(t, scan).table, again).table.ports;
      |two| == |one| && forall i :: 0 <= i < |one| ==> PortContent(two[i]) == PortContent(one[i])
  {
    var one := MergeAll(t, scan);
    WithoutAdoptionAlike(t, scan, again);
    forall k | 0 <= k < |again| ensures DistinctPorts(again[k].host.ports) {
      assert again[k].host == scan[k].host;
    }
    MergeKeepsPortsUnique(t, scan);
    MergeIsRecord(t, scan);
    MergeIsRecord(one.table, again);
    SameHostsSameReports(scan, again, one.at);
    SecondReportsChangeNothing(t.ports, Reports(scan, one.at), Reports(again, one.at));
  }

  lemma SecondReportsChangeNothing(ports: seq<PortRow>, first: seq<Report>, second: seq<Report>)
    requires PortsUnique(ports) && SameReports(first, second)
    ensures var one := Record(ports, first);
      var two := Record(one, second);
      |two| == |one| && forall i :: 0 <= i < |one| ==> PortContent(two[i]) == PortContent(one[i])
  {
    var one := Record(ports, first);
    ReportsAreAbsorbed(ports, first);
    forall r | r in second ensures Reported(one, r) {
      var i :| 0 <= i < |second| && second[i] == r;
      assert first[i] in first;
    }
    ReportsArePatches(one, second);
    forall i | 0 <= i < |one| ensures PatchOf(second, one[i]) == PatchOf(first, one[i]) {
      SameReportsSamePatch(first, second, one[i].deviceId, one[i].key);
    }
  }

  /**
   * Scanning twice is scanning once: when no host of the scan adopts another's row, the second
   * merge creates no device and no port row, resolves every host to the same device, and leaves
   * every field but the times as the first merge left it.
   */
  lemma RescanIsAFixpoint(t: Table, scan: seq<Sighting>, again: seq<Sighting>)
    requires Consistent(t) && WellFormed(scan) && NoAdoption(t, scan) && SameHosts(scan, again)
    ensures var one := MergeAll(t, scan);
      var two := MergeAll(one.table, again);
      two.at == one.at && two.created == 0 && SameButTimes(one.table, two.table)
  {
    WithoutAdoptionAlike(t, scan, again);
    var one := MergeAll(t, scan);
    forall row | 0 <= row < |one.table.devices| {
      SecondScanChangesNoDevice(t, scan, again, row);
    }
    SecondScanChangesNoPort(t, scan, again);
  }
}
