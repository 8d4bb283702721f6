/** What each list of a comparison says, in the rows of the two scans (app/modules/history/service.py). */
module ComparisonReport {
  import opened Wrappers
  import opened Sequences
  import opened Records
  import opened Validation
  import opened History
  import opened CompareRuns

  // ---------------------------------------------------------------- hosts and rows

  /** Two rows speak of one host: the same device, or the same address when neither has a device. */
  predicate SameHost(a: Observation, b: Observation) {
    a.deviceId == b.deviceId && (a.deviceId == None ==> a.ip == b.ip)
  }

  /** Row `i` is the last in which its host is present: the one the host is compared by. */
  predicate Represents(rows: seq<Observation>, i: nat) {
    && i < |rows| && rows[i].present
    && forall j :: i < j < |rows| && rows[j].present ==> !SameHost(rows[j], rows[i])
  }

  /** The host of `o` is present in no row. */
  predicate NotAmong(rows: seq<Observation>, o: Observation) {
    forall j :: 0 <= j < |rows| && rows[j].present ==> !SameHost(rows[j], o)
  }

  /** The address is in the range; a text that is no address, or no range, is never. */
  ghost predicate InSubnet(ip: string, subnet: string) {
    exists a, n :: ParseAddress(ip) == Some(a) && ParseLoose(subnet) == Some(n) && Contains(n, a)
  }

  /** The entry speaks of row `o`, under the device's current name, else its hostname then, else its address. */
  predicate Names(d: HostDelta, o: Observation, names: map<nat, string>) {
    && d.deviceId == o.deviceId && d.ip == o.ip
    && (o.deviceId.Some? && o.deviceId.value in names && names[o.deviceId.value] != "" ==> d.name == names[o.deviceId.value])
    && (!(o.deviceId.Some? && o.deviceId.value in names && names[o.deviceId.value] != "") ==>
          d.name == if o.hostname.Some? && o.hostname.value != "" then o.hostname.value else o.ip)
  }

  lemma SameHostIff(a: Observation, b: Observation)
    ensures SameHost(a, b) <==> KeyOf(a) == KeyOf(b)
  {
  }

  lemma NamesIff(d: HostDelta, o: Observation, names: map<nat, string>)
    ensures Names(d, o, names) <==> d == Delta(o, names, d.lines)
  {
  }

  lemma InSubnetIff(ip: string, subnet: string)
    ensures InSubnet(ip, subnet) <==> Covered(subnet)(ip)
  {
  }

  lemma {:induction false} RepresentsIsSighted(rows: seq<Observation>, i: nat)
    requires Represents(rows, i)
    ensures KeyOf(rows[i]) in SightedBy(rows) && SightedBy(rows)[KeyOf(rows[i])] == rows[i]
  {
    var n := |rows| - 1;
    if i < n {
      assert rows[..n][i] == rows[i];
      assert rows[n].present ==> !SameHost(rows[n], rows[i]);
      SameHostIff(rows[n], rows[i]);
      RepresentsIsSighted(rows[..n], i);
    }
  }

  lemma {:induction false} SightedIsRepresented(rows: seq<Observation>, k: HostKey) returns (i: nat)
    requires k in SightedBy(rows)
    ensures Represents(rows, i) && KeyOf(rows[i]) == k && SightedBy(rows)[k] == rows[i]
  {
    var n := |rows| - 1;
    if rows[n].present && KeyOf(rows[n]) == k {
      i := n;
    } else {
      i := SightedIsRepresented(rows[..n], k);
      SameHostIff(rows[n], rows[i]);
    }
  }

  lemma NotAmongIff(rows: seq<Observation>, o: Observation)
    ensures NotAmong(rows, o) <==> KeyOf(o) !in SightedBy(rows)
  {
    if KeyOf(o) in SightedBy(rows) {
      var i := SightedIsRepresented(rows, KeyOf(o));
      SameHostIff(rows[i], o);
    }
    forall j | 0 <= j < |rows| && rows[j].present && SameHost(rows[j], o) ensures KeyOf(o) in SightedBy(rows) {
      SameHostIff(rows[j], o);
      PresentIsSighted(rows, j);
    }
  }

  // ---------------------------------------------------------------- added and gone

  /** Row `i` of one scan speaks of a host the other scan did not see, and `d` is its entry. */
  predicate OnlyIn(d: HostDelta, rows: seq<Observation>, others: seq<Observation>, names: map<nat, string>, i: nat) {
    Represents(rows, i) && NotAmong(others, rows[i]) && Names(d, rows[i], names)
  }

  ghost predicate IsAdded(d: HostDelta, baseRows: seq<Observation>, targetRows: seq<Observation>, names: map<nat, string>) {
    exists i: nat :: OnlyIn(d, targetRows, baseRows, names, i) && d.lines == OpenPorts(targetRows[i].ports)
  }

  ghost predicate IsGone(d: HostDelta, baseRows: seq<Observation>, targetRows: seq<Observation>, names: map<nat, string>) {
    d.lines == NoLines && exists i: nat :: OnlyIn(d, baseRows, targetRows, names, i)
  }

  lemma OnlyInIff(d: HostDelta, rows: seq<Observation>, others: seq<Observation>, names: map<nat, string>, k: HostKey)
    requires k in SightedBy(rows) && k !in SightedBy(others) && d == Delta(SightedBy(rows)[k], names, d.lines)
    ensures exists i: nat :: OnlyIn(d, rows, others, names, i) && rows[i] == SightedBy(rows)[k]
  {
    var i := SightedIsRepresented(rows, k);
    NotAmongIff(others, rows[i]);
    NamesIff(d, rows[i], names);
    assert OnlyIn(d, rows, others, names, i);
  }

  lemma OnlyInIsSighted(d: HostDelta, rows: seq<Observation>, others: seq<Observation>, names: map<nat, string>, i: nat)
    requires OnlyIn(d, rows, others, names, i)
    ensures KeyOf(rows[i]) in SightedBy(rows) && KeyOf(rows[i]) !in SightedBy(others) && SightedBy(rows)[KeyOf(rows[i])] == rows[i]
    ensures d == Delta(rows[i], names, d.lines)
  {
    RepresentsIsSighted(rows, i);
    NotAmongIff(others, rows[i]);
    NamesIff(d, rows[i], names);
  }

  /** A collected class holds a delta exactly when the pass picks it. */
  lemma CollectsIff(deltas: seq<HostDelta>, keys: set<HostKey>, all: set<HostKey>, pick: Picker, d: HostDelta)
    requires Collects(deltas, keys, pick) && keys == Picked(all, pick)
    ensures d in deltas ==> DeltaKey(d) in all && pick(DeltaKey(d)) == Some(d)
    ensures forall k :: k in all && pick(k) == Some(d) ==> d in deltas
  {
  }

  lemma AddedListed(r: Comparison, c: Inputs, baseRows: seq<Observation>, targetRows: seq<Observation>, d: HostDelta)
    requires ListsClasses(r, c) && c.before == SightedBy(baseRows) && c.after == SightedBy(targetRows)
    ensures d in r.added <==> IsAdded(d, baseRows, targetRows, c.names)
  {
    CollectsIff(r.added, AddedKeys(c), c.after.Keys, AddedBy(c), d);
    if d in r.added {
      assert AddedDelta(c, DeltaKey(d)) == Some(d);
      OnlyInIff(d, targetRows, baseRows, c.names, DeltaKey(d));
    }
    if i: nat :| OnlyIn(d, targetRows, baseRows, c.names, i) && d.lines == OpenPorts(targetRows[i].ports) {
      OnlyInIsSighted(d, targetRows, baseRows, c.names, i);
      assert AddedBy(c)(KeyOf(targetRows[i])) == Some(d);
    }
  }

  lemma GoneListed(deltas: seq<HostDelta>, c: Inputs, inRange: bool, baseRows: seq<Observation>, targetRows: seq<Observation>, d: HostDelta)
    requires Collects(deltas, GoneKeys(c, inRange), GoneBy(c, inRange)) && c.before == SightedBy(baseRows) && c.after == SightedBy(targetRows)
    ensures d in deltas <==> IsGone(d, baseRows, targetRows, c.names) && c.covered(d.ip) == inRange
  {
    CollectsIff(deltas, GoneKeys(c, inRange), c.before.Keys, GoneBy(c, inRange), d);
    if d in deltas {
      assert GoneDelta(c, DeltaKey(d), inRange) == Some(d);
      OnlyInIff(d, baseRows, targetRows, c.names, DeltaKey(d));
    }
    if i: nat :| d.lines == NoLines && OnlyIn(d, baseRows, targetRows, c.names, i) && c.covered(d.ip) == inRange {
      OnlyInIsSighted(d, baseRows, targetRows, c.names, i);
      assert GoneBy(c, inRange)(KeyOf(baseRows[i])) == Some(d);
    }
  }

  // ---------------------------------------------------------------- changed

  /** Rows `i` and `j` are what the two scans saw of one host. */
  predicate Matched(baseRows: seq<Observation>, targetRows: seq<Observation>, i: nat, j: nat) {
    Represents(baseRows, i) && Represents(targetRows, j) && SameHost(baseRows[i], targetRows[j])
  }

  /** A field moved or, where ports are compared, the open ports differ. */
  ghost predicate Differ(a: Observation, b: Observation, portsCompared: bool) {
    (exists c :: IsChange(c, a, b)) || (portsCompared && PortsDiffer(a.ports, b.ports))
  }

  /** Exactly the texts of the ports only `now` lists, each once. */
  ghost predicate TellsNewPorts(texts: seq<string>, was: seq<PortEntry>, now: seq<PortEntry>) {
    && NoDuplicates(texts)
    && forall x :: x in texts <==> exists i: nat :: IsNew(was, now, i) && x == EntryText(now[i])
  }

  /** The difference says what moved, and what opened and closed where ports are compared and known. */
  ghost predicate Describes(diff: ObservationDiff, a: Observation, b: Observation, portsCompared: bool) {
    && InFieldOrder(diff.fields) && (forall c :: c in diff.fields <==> IsChange(c, a, b))
    && diff.portsCompared == (portsCompared && a.ports.Some? && b.ports.Some?)
    && (!diff.portsCompared ==> diff.newlyOpen == [] && diff.noLongerOpen == [])
    && (diff.portsCompared ==>
          && TellsNewPorts(diff.newlyOpen, a.ports.value, b.ports.value)
          && TellsNewPorts(diff.noLongerOpen, b.ports.value, a.ports.value))
  }

  ghost predicate IsChanged(d: HostDelta, baseRows: seq<Observation>, targetRows: seq<Observation>, names: map<nat, string>, portsCompared: bool, i: nat, j: nat) {
    && Matched(baseRows, targetRows, i, j)
    && Differ(baseRows[i], targetRows[j], portsCompared)
    && Names(d, targetRows[j], names)
    && d.lines.DiffLines? && Describes(d.lines.diff, baseRows[i], targetRows[j], portsCompared)
  }

  lemma ShownDescribes(a: Observation, b: Observation, portsCompared: bool)
    ensures Describes(ShownDiff(a, b, portsCompared), a, b, portsCompared)
  {
    FieldsReported(a, b);
    if portsCompared && a.ports.Some? && b.ports.Some? {
      PortsReported(a.ports.value, b.ports.value);
      PortsReported(b.ports.value, a.ports.value);
    }
  }

  lemma ShownChangedIff(a: Observation, b: Observation, portsCompared: bool)
    ensures Changed(ShownDiff(a, b, portsCompared)) <==> Differ(a, b, portsCompared)
  {
    ChangedIff(a, b);
    if !portsCompared {
      FieldsReported(a, b);
      var fields := Diff(a, b).fields;
      assert fields != [] ==> IsChange(fields[0], a, b) by {
        assert fields != [] ==> fields[0] in fields;
      }
    }
  }

  lemma MatchedIsCommon(baseRows: seq<Observation>, targetRows: seq<Observation>, i: nat, j: nat)
    requires Matched(baseRows, targetRows, i, j)
    ensures KeyOf(baseRows[i]) == KeyOf(targetRows[j])
    ensures KeyOf(targetRows[j]) in SightedBy(baseRows) && SightedBy(baseRows)[KeyOf(targetRows[j])] == baseRows[i]
    ensures KeyOf(targetRows[j]) in SightedBy(targetRows) && SightedBy(targetRows)[KeyOf(targetRows[j])] == targetRows[j]
  {
    SameHostIff(baseRows[i], targetRows[j]);
    RepresentsIsSighted(baseRows, i);
    RepresentsIsSighted(targetRows, j);
  }

  lemma CommonIsMatched(baseRows: seq<Observation>, targetRows: seq<Observation>, k: HostKey) returns (i: nat, j: nat)
    requires k in SightedBy(baseRows) && k in SightedBy(targetRows)
    ensures Matched(baseRows, targetRows, i, j) && KeyOf(targetRows[j]) == k
    ensures baseRows[i] == SightedBy(baseRows)[k] && targetRows[j] == SightedBy(targetRows)[k]
  {
    i := SightedIsRepresented(baseRows, k);
    j := SightedIsRepresented(targetRows, k);
    SameHostIff(baseRows[i], targetRows[j]);
  }

  lemma ChangedIsListed(deltas: seq<HostDelta>, c: Inputs, baseRows: seq<Observation>, targetRows: seq<Observation>, i: nat, j: nat)
    requires Collects(deltas, ChangedKeys(c), ChangedBy(c)) && c.before == SightedBy(baseRows) && c.after == SightedBy(targetRows)
    requires Matched(baseRows, targetRows, i, j) && Differ(baseRows[i], targetRows[j], c.portsCompared)
    ensures exists d :: d in deltas && IsChanged(d, baseRows, targetRows, c.names, c.portsCompared, i, j)
  {
    MatchedIsCommon(baseRows, targetRows, i, j);
    var k := KeyOf(targetRows[j]);
    ShownChangedIff(baseRows[i], targetRows[j], c.portsCompared);
    ShownDescribes(baseRows[i], targetRows[j], c.portsCompared);
    assert ChangedBy(c)(k).Some?;
    var d := ChangedDelta(c, k).value;
    NamesIff(d, targetRows[j], c.names);
    assert d in deltas;
  }

  lemma ListedIsChanged(deltas: seq<HostDelta>, c: Inputs, baseRows: seq<Observation>, targetRows: seq<Observation>, d: HostDelta)
    requires Collects(deltas, ChangedKeys(c), ChangedBy(c)) && c.before == SightedBy(baseRows) && c.after == SightedBy(targetRows)
    requires d in deltas
    ensures exists i: nat, j: nat :: IsChanged(d, baseRows, targetRows, c.names, c.portsCompared, i, j)
  {
    var k := DeltaKey(d);
    assert ChangedDelta(c, k) == Some(d);
    var i, j := CommonIsMatched(baseRows, targetRows, k);
    ShownChangedIff(baseRows[i], targetRows[j], c.portsCompared);
    ShownDescribes(baseRows[i], targetRows[j], c.portsCompared);
    NamesIff(d, targetRows[j], c.names);
    assert IsChanged(d, baseRows, targetRows, c.names, c.portsCompared, i, j);
  }

  // ---------------------------------------------------------------- unchanged

  /** The later scan's rows whose host the earlier scan saw just the same. */
  ghost function SameAsBefore(baseRows: seq<Observation>, targetRows: seq<Observation>, portsCompared: bool): set<nat> {
    set j: nat | j < |targetRows| && exists i: nat :: Matched(baseRows, targetRows, i, j) && !Differ(baseRows[i], targetRows[j], portsCompared)
  }

  /** Different places, different hosts: as many keys as rows. */
  lemma {:induction false} RowsCountKeys(rows: seq<Observation>, places: set<nat>)
    requires forall j :: j in places ==> Represents(rows, j)
    ensures |set j | j in places && j < |rows| :: KeyOf(rows[j])| == |places|
    decreases places
  {
    if j :| j in places {
      var rest := places - {j};
      RowsCountKeys(rows, rest);
      forall i | i in rest ensures KeyOf(rows[i]) != KeyOf(rows[j]) {
        SameHostIff(rows[i], rows[j]);
        SameHostIff(rows[j], rows[i]);
        assert i < j || j < i;
      }
      assert (set i | i in places && i < |rows| :: KeyOf(rows[i])) == (set i | i in rest && i < |rows| :: KeyOf(rows[i])) + {KeyOf(rows[j])};
    } else {
      assert places == {};
    }
  }

  lemma UnchangedAreTheSame(c: Inputs, baseRows: seq<Observation>, targetRows: seq<Observation>)
    requires c.before == SightedBy(baseRows) && c.after == SightedBy(targetRows)
    ensures |UnchangedKeys(c)| == |SameAsBefore(baseRows, targetRows, c.portsCompared)|
  {
    var places := SameAsBefore(baseRows, targetRows, c.portsCompared);
    RowsCountKeys(targetRows, places);
    forall k | k in UnchangedKeys(c) ensures exists j :: j in places && KeyOf(targetRows[j]) == k {
      var i, j := CommonIsMatched(baseRows, targetRows, k);
      ShownChangedIff(baseRows[i], targetRows[j], c.portsCompared);
      assert ChangedBy(c)(k) == None;
      assert j in places;
    }
    forall j | j in places ensures KeyOf(targetRows[j]) in UnchangedKeys(c) {
      var i: nat :| Matched(baseRows, targetRows, i, j) && !Differ(baseRows[i], targetRows[j], c.portsCompared);
      MatchedIsCommon(baseRows, targetRows, i, j);
      ShownChangedIff(baseRows[i], targetRows[j], c.portsCompared);
      assert ChangedBy(c)(KeyOf(targetRows[j])) == None;
    }
    assert UnchangedKeys(c) == set j | j in places && j < |targetRows| :: KeyOf(targetRows[j]);
  }

  // ---------------------------------------------------------------- order

  /** Addresses by value; a text that is none stands just below 255.0.0.0. */
  predicate NotAfter(x: string, y: string) {
    match (ParseAddress(x), ParseAddress(y))
    case (Some(a), Some(b)) => a <= b
    case (Some(a), None) => a < 0xFF00_0000
    case (None, Some(b)) => 0xFF00_0000 <= b
    case (None, None) => true
  }

  predicate InAddressOrder(deltas: seq<HostDelta>) {
    forall i, j :: 0 <= i < j < |deltas| ==> NotAfter(deltas[i].ip, deltas[j].ip)
  }

  lemma SortedInAddressOrder(deltas: seq<HostDelta>)
    requires SortedBy(deltas, Rank)
    ensures InAddressOrder(deltas)
  {
    forall i, j | 0 <= i < j < |deltas| ensures NotAfter(deltas[i].ip, deltas[j].ip) {
      assert Rank(deltas[i]) <= Rank(deltas[j]);
    }
  }

  // ---------------------------------------------------------------- the lists

  /** Each list in address order, with no entry twice. */
  ghost predicate ListsInOrder(r: Comparison) {
    && NoDuplicates(r.added) && NoDuplicates(r.missing) && NoDuplicates(r.outside) && NoDuplicates(r.changed)
    && InAddressOrder(r.added) && InAddressOrder(r.missing) && InAddressOrder(r.outside) && InAddressOrder(r.changed)
  }

  lemma ClassesInOrder(r: Comparison, c: Inputs)
    requires ListsClasses(r, c)
    ensures ListsInOrder(r)
  {
    SortedInAddressOrder(r.added);
    SortedInAddressOrder(r.missing);
    SortedInAddressOrder(r.outside);
    SortedInAddressOrder(r.changed);
  }

  lemma AllAdded(r: Comparison, c: Inputs, baseRows: seq<Observation>, targetRows: seq<Observation>)
    requires ListsClasses(r, c) && c.before == SightedBy(baseRows) && c.after == SightedBy(targetRows)
    ensures forall d :: d in r.added <==> IsAdded(d, baseRows, targetRows, c.names)
  {
    forall d ensures d in r.added <==> IsAdded(d, baseRows, targetRows, c.names) {
      AddedListed(r, c, baseRows, targetRows, d);
    }
  }

  lemma AllGone(deltas: seq<HostDelta>, c: Inputs, inRange: bool, baseRows: seq<Observation>, targetRows: seq<Observation>, subnet: string)
    requires Collects(deltas, GoneKeys(c, inRange), GoneBy(c, inRange)) && c.before == SightedBy(baseRows) && c.after == SightedBy(targetRows)
    requires c.covered == Covered(subnet)
    ensures forall d :: d in deltas <==> IsGone(d, baseRows, targetRows, c.names) && InSubnet(d.ip, subnet) == inRange
  {
    forall d ensures d in deltas <==> IsGone(d, baseRows, targetRows, c.names) && InSubnet(d.ip, subnet) == inRange {
      GoneListed(deltas, c, inRange, baseRows, targetRows, d);
      InSubnetIff(d.ip, subnet);
    }
  }

  /**
   * Added are exactly the hosts only the later scan saw, missing exactly those only the earlier one
   * saw whose address is in the later scan's range, and outside exactly those whose address is not.
   */
  ghost predicate ListsHosts(r: Comparison, subnet: string, baseRows: seq<Observation>, targetRows: seq<Observation>, names: map<nat, string>) {
    && (forall d :: d in r.added <==> IsAdded(d, baseRows, targetRows, names))
    && (forall d :: d in r.missing <==> IsGone(d, baseRows, targetRows, names) && InSubnet(d.ip, subnet))
    && (forall d :: d in r.outside <==> IsGone(d, baseRows, targetRows, names) && !InSubnet(d.ip, subnet))
  }

  lemma ClassesListed(r: Comparison, c: Inputs, baseRows: seq<Observation>, targetRows: seq<Observation>, subnet: string)
    requires ListsClasses(r, c) && c.before == SightedBy(baseRows) && c.after == SightedBy(targetRows) && c.covered == Covered(subnet)
    ensures ListsHosts(r, subnet, baseRows, targetRows, c.names) && ListsInOrder(r)
  {
    AllAdded(r, c, baseRows, targetRows);
    AllGone(r.missing, c, true, baseRows, targetRows, subnet);
    AllGone(r.outside, c, false, baseRows, targetRows, subnet);
    ClassesInOrder(r, c);
  }

  lemma ReportListed(r: Comparison, base: RunInfo, target: RunInfo, baseRows: seq<Observation>, targetRows: seq<Observation>, names: map<nat, string>)
    ensures ListsClasses(r, InputsOf(base, target, baseRows, targetRows, names)) ==>
      ListsHosts(r, target.subnet, baseRows, targetRows, names) && ListsInOrder(r)
  {
    var c := InputsOf(base, target, baseRows, targetRows, names);
    if ListsClasses(r, c) {
      ClassesListed(r, c, baseRows, targetRows, target.subnet);
    }
  }

  /** A comparison lists the added, missing and outside hosts, the last two told apart by the later scan's range. */
  lemma AddedMissingOutside(r: Comparison, base: RunInfo, target: RunInfo, baseRows: seq<Observation>, targetRows: seq<Observation>, names: map<nat, string>)
    requires Compares(r, base, target, baseRows, targetRows, names) && r.comparable
    ensures ListsHosts(r, target.subnet, baseRows, targetRows, names) && ListsInOrder(r)
  {
    ReportListed(r, base, target, baseRows, targetRows, names);
  }

  /** Changed are exactly the hosts both scans saw and saw differently, each with what differs. */
  ghost predicate ListsChanges(r: Comparison, baseRows: seq<Observation>, targetRows: seq<Observation>, names: map<nat, string>, portsCompared: bool) {
    && (forall d :: d in r.changed ==> exists i: nat, j: nat :: IsChanged(d, baseRows, targetRows, names, portsCompared, i, j))
    && (forall i: nat, j: nat :: Matched(baseRows, targetRows, i, j) && Differ(baseRows[i], targetRows[j], portsCompared) ==>
          exists d :: d in r.changed && IsChanged(d, baseRows, targetRows, names, portsCompared, i, j))
  }

  lemma CommonListed(r: Comparison, c: Inputs, baseRows: seq<Observation>, targetRows: seq<Observation>)
    requires ListsClasses(r, c) && c.before == SightedBy(baseRows) && c.after == SightedBy(targetRows)
    requires r.unchangedCount == |UnchangedKeys(c)|
    ensures ListsChanges(r, baseRows, targetRows, c.names, c.portsCompared)
    ensures r.unchangedCount == |SameAsBefore(baseRows, targetRows, c.portsCompared)|
  {
    forall d | d in r.changed ensures exists i: nat, j: nat :: IsChanged(d, baseRows, targetRows, c.names, c.portsCompared, i, j) {
      ListedIsChanged(r.changed, c, baseRows, targetRows, d);
    }
    forall i: nat, j: nat | Matched(baseRows, targetRows, i, j) && Differ(baseRows[i], targetRows[j], c.portsCompared)
      ensures exists d :: d in r.changed && IsChanged(d, baseRows, targetRows, c.names, c.portsCompared, i, j)
    {
      ChangedIsListed(r.changed, c, baseRows, targetRows, i, j);
    }
    UnchangedAreTheSame(c, baseRows, targetRows);
  }

  /** A comparison lists the changed hosts and counts those both scans saw alike. */
  lemma ChangedAndUnchanged(r: Comparison, base: RunInfo, target: RunInfo, baseRows: seq<Observation>, targetRows: seq<Observation>, names: map<nat, string>)
    requires Compares(r, base, target, baseRows, targetRows, names) && r.comparable
    ensures ListsChanges(r, baseRows, targetRows, names, r.portsCompared)
    ensures r.unchangedCount == |SameAsBefore(baseRows, targetRows, r.portsCompared)|
  {
    CommonListed(r, InputsOf(base, target, baseRows, targetRows, names), baseRows, targetRows);
  }
}
