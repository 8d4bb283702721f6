/**
 * Comparing two observations of a device and turning its observations into a timeline
 * (app/modules/history/service.py).
 */
module History {
  import opened Wrappers
  import opened Sequences
  import opened Decimal
  import opened Records

  // ---------------------------------------------------------------- port labels

  function ProtocolName(p: Protocol): string {
    match p
    case Tcp => "tcp"
    case Udp => "udp"
  }

  /** "22/tcp": what identifies a port. */
  function PortText(key: PortKey): string {
    Print(key.port) + "/" + ProtocolName(key.protocol)
  }

  function Truthy(s: Option<string>): bool {
    s.Some? && s.value != ""
  }

  /** "22/tcp (ssh)", or the bare key when no service is known. */
  function Label(e: PortEntry): string {
    if Truthy(e.service) then PortText(e.key) + " (" + e.service.value + ")" else PortText(e.key)
  }

  /** `port_labels`; a later entry for the same port wins. */
  function PortLabels(ports: seq<PortEntry>): map<PortKey, string> {
    if ports == [] then map[]
    else PortLabels(ports[..|ports| - 1])[ports[|ports| - 1].key := Label(ports[|ports| - 1])]
  }

  /** `s.partition(c)[0]` and, after the separator, `s.partition(c)[2]`. */
  function Before(s: string, c: char): string {
    if s == "" || s[0] == c then "" else [s[0]] + Before(s[1..], c)
  }

  function After(s: string, c: char): string {
    if s == "" then "" else if s[0] == c then s[1..] else After(s[1..], c)
  }

  /** `_port_sort_key`: the protocol token, then the number; the service does not count. */
  function PortSortKey(text: string): (string, nat) {
    var number := Before(text, '/');
    (Before(After(text, '/'), ' '), if number != "" && AllDigits(number) then Value(number) else 0)
  }

  /** Tuple order on the keys that occur: "tcp" before "udp", then by number. */
  function KeyRank(key: (string, nat)): int {
    (if key.0 == "tcp" then 0 else 65536) + key.1
  }

  function LabelRank(text: string): int {
    KeyRank(PortSortKey(text))
  }

  function SortKeyOf(key: PortKey): (string, nat) {
    (ProtocolName(key.protocol), key.port)
  }

  lemma {:induction false} PartitionAt(a: string, c: char, b: string)
    requires c !in a
    ensures Before(a + [c] + b, c) == a && After(a + [c] + b, c) == b
    ensures Before(a, c) == a
  {
    if a == "" {
      assert "" + [c] + b == [c] + b;
    } else {
      assert (a + [c] + b)[1..] == a[1..] + [c] + b;
      PartitionAt(a[1..], c, b);
    }
  }

  /** A label's sort key is its port's protocol and number, whatever the service is called. */
  lemma LabelSortsByPort(e: PortEntry)
    ensures PortSortKey(Label(e)) == SortKeyOf(e.key)
  {
    var number, protocol := Print(e.key.port), ProtocolName(e.key.protocol);
    ReadPrinted(e.key.port);
    var rest := if Truthy(e.service) then protocol + [' '] + ("(" + e.service.value + ")") else protocol;
    assert Label(e) == number + ['/'] + rest by {
      assert " (" == [' '] + "(";
    }
    PartitionAt(number, '/', rest);
    PartitionAt(protocol, ' ', if Truthy(e.service) then "(" + e.service.value + ")" else "");
  }

  lemma SortKeyDecides(a: PortKey, b: PortKey)
    ensures KeyRank(SortKeyOf(a)) == KeyRank(SortKeyOf(b)) ==> a == b
  {
    assert ProtocolName(a.protocol)[0] != ProtocolName(b.protocol)[0] <==> a.protocol != b.protocol;
  }

  lemma {:induction false} LabelOf(ports: seq<PortEntry>, key: PortKey)
    requires key in PortLabels(ports)
    ensures PortSortKey(PortLabels(ports)[key]) == SortKeyOf(key)
  {
    var last := ports[|ports| - 1];
    if last.key == key {
      LabelSortsByPort(last);
    } else {
      LabelOf(ports[..|ports| - 1], key);
    }
  }

  // ---------------------------------------------------------------- comparing two observations

  /** The keys of one dictionary that are not in another, in the order they were inserted. */
  function KeysNotIn(ports: seq<PortEntry>, other: map<PortKey, string>): seq<PortKey> {
    if ports == [] then []
    else
      var rest, key := KeysNotIn(ports[..|ports| - 1], other), ports[|ports| - 1].key;
      if key in other || key in rest then rest else rest + [key]
  }

  function LabelsAt(labels: map<PortKey, string>, keys: seq<PortKey>): seq<string>
    requires forall k :: k in keys ==> k in labels
  {
    if keys == [] then [] else LabelsAt(labels, keys[..|keys| - 1]) + [labels[keys[|keys| - 1]]]
  }

  lemma {:induction false} KeysNotInAre(ports: seq<PortEntry>, other: map<PortKey, string>)
    ensures NoDuplicates(KeysNotIn(ports, other))
    ensures forall k :: k in KeysNotIn(ports, other) <==> k in PortLabels(ports) && k !in other
  {
    if ports != [] {
      KeysNotInAre(ports[..|ports| - 1], other);
    }
  }

  /** The labels of `now` for ports that `was` does not list, sorted. */
  function NewLabels(was: seq<PortEntry>, now: seq<PortEntry>): seq<string> {
    KeysNotInAre(now, PortLabels(was));
    SortBy(LabelsAt(PortLabels(now), KeysNotIn(now, PortLabels(was))), LabelRank)
  }

  datatype Field = IpAddress | MacAddress | Hostname | Vendor

  datatype FieldChange = FieldChange(field: Field, before: Option<string>, after: Option<string>)

  function FieldOf(o: Observation, field: Field): Option<string> {
    match field
    case IpAddress => Some(o.ip)
    case MacAddress => o.mac
    case Hostname => o.hostname
    case Vendor => o.vendor
  }

  /** `value or None`. */
  function OrNone(s: Option<string>): Option<string> {
    if Truthy(s) then s else None
  }

  function FieldDiff(before: Observation, after: Observation, field: Field): seq<FieldChange> {
    if OrNone(FieldOf(before, field)) != OrNone(FieldOf(after, field))
    then [FieldChange(field, FieldOf(before, field), FieldOf(after, field))]
    else []
  }

  datatype ObservationDiff = ObservationDiff(fields: seq<FieldChange>, newlyOpen: seq<string>, noLongerOpen: seq<string>, portsCompared: bool)

  predicate Changed(d: ObservationDiff) {
    d.fields != [] || d.newlyOpen != [] || d.noLongerOpen != []
  }

  function FieldDiffs(before: Observation, after: Observation): seq<FieldChange> {
    FieldDiff(before, after, IpAddress) + FieldDiff(before, after, MacAddress)
    + FieldDiff(before, after, Hostname) + FieldDiff(before, after, Vendor)
  }

  /** `diff_observations`. */
  function Diff(before: Observation, after: Observation): ObservationDiff {
    if before.ports.None? || after.ports.None? then
      ObservationDiff(FieldDiffs(before, after), [], [], false)
    else
      ObservationDiff(FieldDiffs(before, after),
                      NewLabels(before.ports.value, after.ports.value),
                      NewLabels(after.ports.value, before.ports.value), true)
  }

  // ---------------------------------------------------------------- what the listing order is

  lemma {:induction false} LabelsAtAre(ports: seq<PortEntry>, keys: seq<PortKey>)
    requires NoDuplicates(keys)
    requires forall k :: k in keys ==> k in PortLabels(ports)
    ensures NoDuplicates(LabelsAt(PortLabels(ports), keys))
    ensures forall x :: x in LabelsAt(PortLabels(ports), keys) <==> exists k :: k in keys && PortLabels(ports)[k] == x
  {
    if keys != [] {
      var rest, last := keys[..|keys| - 1], keys[|keys| - 1];
      InitLast(keys);
      LabelsAtAre(ports, rest);
      LabelOf(ports, last);
      var before := LabelsAt(PortLabels(ports), rest);
      assert LabelsAt(PortLabels(ports), keys) == before + [PortLabels(ports)[last]];
      assert last in keys && last !in rest && forall k :: k in rest ==> k in keys;
      forall x | x in before ensures x != PortLabels(ports)[last] {
        var k :| k in rest && PortLabels(ports)[k] == x;
        LabelOf(ports, k);
        SortKeyDecides(k, last);
      }
      AppendKeepsDistinct(before, PortLabels(ports)[last]);
      forall x ensures x in LabelsAt(PortLabels(ports), keys) <==> exists k :: k in keys && PortLabels(ports)[k] == x {
        if x in before {
          var k :| k in rest && PortLabels(ports)[k] == x;
          assert k in keys;
        }
        if k :| k in keys && PortLabels(ports)[k] == x {
          assert k in rest || k == last;
        }
      }
    }
  }

  lemma {:induction false} LabelsKeepRank(ports: seq<PortEntry>, keys: seq<PortKey>, x: string)
    requires forall k :: k in keys ==> k in PortLabels(ports)
    requires x in LabelsAt(PortLabels(ports), keys)
    ensures exists k :: k in keys && PortLabels(ports)[k] == x && LabelRank(x) == KeyRank(SortKeyOf(k))
  {
    var n := |keys| - 1;
    if PortLabels(ports)[keys[n]] == x {
      LabelOf(ports, keys[n]);
      assert keys[n] in keys;
    } else {
      LabelsKeepRank(ports, keys[..n], x);
    }
  }

  /**
   * The set difference is enumerated in no particular order; sorted, every enumeration of it
   * comes out the same, so the reported list does not depend on it.
   */
  lemma ListingOrderIsFixed(was: seq<PortEntry>, now: seq<PortEntry>, keys: seq<PortKey>)
    requires NoDuplicates(keys)
    requires forall k :: k in keys <==> k in PortLabels(now) && k !in PortLabels(was)
    ensures SortBy(LabelsAt(PortLabels(now), keys), LabelRank) == NewLabels(was, now)
  {
    var listed, labels := KeysNotIn(now, PortLabels(was)), PortLabels(now);
    KeysNotInAre(now, PortLabels(was));
    LabelsAtAre(now, keys);
    LabelsAtAre(now, listed);
    var a, b := LabelsAt(labels, keys), LabelsAt(labels, listed);
    SameSetSameBag(a, b);
    SortByArranges(a, LabelRank);
    SortByArranges(b, LabelRank);
    var m := multiset(SortBy(a, LabelRank));
    forall x, y | x in m && y in m && LabelRank(x) == LabelRank(y) ensures x == y {
      LabelsKeepRank(now, keys, x);
      LabelsKeepRank(now, keys, y);
      var j, k :| j in keys && k in keys && labels[j] == x && labels[k] == y
        && LabelRank(x) == KeyRank(SortKeyOf(j)) && LabelRank(y) == KeyRank(SortKeyOf(k));
      SortKeyDecides(j, k);
    }
    SortedArrangementIsUnique(SortBy(a, LabelRank), SortBy(b, LabelRank), LabelRank);
  }

  lemma SameSetSameBag<T(!new)>(a: seq<T>, b: seq<T>)
    requires NoDuplicates(a) && NoDuplicates(b)
    requires forall x :: x in a <==> x in b
    ensures multiset(a) == multiset(b)
  {
    forall x ensures multiset(a)[x] == multiset(b)[x] {
      if x in a {
        DistinctMultiset(a, x);
        DistinctMultiset(b, x);
      } else {
        assert x !in multiset(a) && x !in multiset(b);
      }
    }
  }

  // ---------------------------------------------------------------- applying a difference

  /** The normalised fields a timeline speaks of. */
  datatype FieldValues = FieldValues(ip: Option<string>, mac: Option<string>, hostname: Option<string>, vendor: Option<string>)

  function Fields(o: Observation): FieldValues {
    FieldValues(OrNone(Some(o.ip)), OrNone(o.mac), OrNone(o.hostname), OrNone(o.vendor))
  }

  function ApplyField(fields: FieldValues, change: FieldChange): FieldValues {
    match change.field
    case IpAddress => fields.(ip := OrNone(change.after))
    case MacAddress => fields.(mac := OrNone(change.after))
    case Hostname => fields.(hostname := OrNone(change.after))
    case Vendor => fields.(vendor := OrNone(change.after))
  }

  function ApplyFields(fields: FieldValues, changes: seq<FieldChange>): FieldValues {
    if changes == [] then fields
    else ApplyField(ApplyFields(fields, changes[..|changes| - 1]), changes[|changes| - 1])
  }

  function SetField(fields: FieldValues, field: Field, value: Option<string>): FieldValues {
    ApplyField(fields, FieldChange(field, None, value))
  }

  function GetField(fields: FieldValues, field: Field): Option<string> {
    match field
    case IpAddress => fields.ip
    case MacAddress => fields.mac
    case Hostname => fields.hostname
    case Vendor => fields.vendor
  }

  /** Whether reported or not, a compared field comes out with its later value. */
  lemma OneMoreField(start: FieldValues, changes: seq<FieldChange>, before: Observation, after: Observation, field: Field)
    requires GetField(ApplyFields(start, changes), field) == OrNone(FieldOf(before, field))
    ensures ApplyFields(start, changes + FieldDiff(before, after, field))
      == SetField(ApplyFields(start, changes), field, FieldOf(after, field))
  {
    var d := FieldDiff(before, after, field);
    if d == [] {
      assert changes + d == changes;
    } else {
      assert (changes + d)[..|changes|] == changes;
    }
  }

  /** Reported field changes take the earlier sighting's fields to the later one's. */
  lemma DiffCarriesFields(before: Observation, after: Observation)
    ensures ApplyFields(Fields(before), Diff(before, after).fields) == Fields(after)
  {
    var f := Fields(before);
    var c1 := FieldDiff(before, after, IpAddress);
    var c2 := c1 + FieldDiff(before, after, MacAddress);
    var c3 := c2 + FieldDiff(before, after, Hostname);
    assert ApplyFields(f, c1) == SetField(f, IpAddress, FieldOf(after, IpAddress)) by {
      OneMoreField(f, [], before, after, IpAddress);
      assert [] + c1 == c1;
    }
    OneMoreField(f, c1, before, after, MacAddress);
    OneMoreField(f, c2, before, after, Hostname);
    OneMoreField(f, c3, before, after, Vendor);
    assert Diff(before, after).fields == c3 + FieldDiff(before, after, Vendor);
  }

  /** The ports an observation lists as open, as a label names them. */
  function OpenKeys(ports: seq<PortEntry>): set<(string, nat)> {
    set k | k in PortLabels(ports) :: SortKeyOf(k)
  }

  function NamedKeys(labels: seq<string>): set<(string, nat)> {
    set x | x in labels :: PortSortKey(x)
  }

  function ApplyPorts(open: set<(string, nat)>, d: ObservationDiff): set<(string, nat)> {
    (open - NamedKeys(d.noLongerOpen)) + NamedKeys(d.newlyOpen)
  }

  lemma NamedAndOne(labels: seq<string>, text: string)
    ensures NamedKeys(labels + [text]) == NamedKeys(labels) + {PortSortKey(text)}
  {
    assert forall x :: x in labels + [text] <==> x in labels || x == text;
  }

  lemma {:induction false} NamedKeysAt(ports: seq<PortEntry>, keys: seq<PortKey>)
    requires forall k :: k in keys ==> k in PortLabels(ports)
    ensures NamedKeys(LabelsAt(PortLabels(ports), keys)) == set k | k in keys :: SortKeyOf(k)
  {
    if keys != [] {
      var rest, last := keys[..|keys| - 1], keys[|keys| - 1];
      InitLast(keys);
      NamedKeysAt(ports, rest);
      LabelOf(ports, last);
      NamedAndOne(LabelsAt(PortLabels(ports), rest), PortLabels(ports)[last]);
      assert (set k | k in keys :: SortKeyOf(k)) == (set k | k in rest :: SortKeyOf(k)) + {SortKeyOf(last)};
    }
  }

  /** The labels listed for one side name exactly the ports only that side has. */
  lemma NewLabelsNameTheDifference(was: seq<PortEntry>, now: seq<PortEntry>)
    ensures NamedKeys(NewLabels(was, now)) == OpenKeys(now) - OpenKeys(was)
  {
    var keys := KeysNotIn(now, PortLabels(was));
    KeysNotInAre(now, PortLabels(was));
    var labels := LabelsAt(PortLabels(now), keys);
    SortByArranges(labels, LabelRank);
    assert NamedKeys(NewLabels(was, now)) == NamedKeys(labels);
    NamedKeysAt(now, keys);
    forall j: PortKey, k: PortKey | SortKeyOf(j) == SortKeyOf(k) ensures j == k {
      SortKeyDecides(j, k);
    }
    assert (set k | k in keys :: SortKeyOf(k)) == OpenKeys(now) - OpenKeys(was);
  }

  /** Reported openings and closings take the earlier sighting's ports to the later one's. */
  lemma DiffCarriesPorts(before: Observation, after: Observation)
    requires before.ports.Some? && after.ports.Some?
    ensures ApplyPorts(OpenKeys(before.ports.value), Diff(before, after)) == OpenKeys(after.ports.value)
  {
    NewLabelsNameTheDifference(before.ports.value, after.ports.value);
    NewLabelsNameTheDifference(after.ports.value, before.ports.value);
  }

  /** The same field, with its values exchanged. */
  function Swapped(c: FieldChange): FieldChange {
    FieldChange(c.field, c.after, c.before)
  }

  /** Every change of one list is the swapped change of the other, in the same order. */
  predicate SwappedChanges(a: seq<FieldChange>, b: seq<FieldChange>) {
    |a| == |b| && forall i :: 0 <= i < |a| ==> b[i] == Swapped(a[i])
  }

  lemma SwappedConcat(a: seq<FieldChange>, b: seq<FieldChange>, c: seq<FieldChange>, d: seq<FieldChange>)
    requires SwappedChanges(a, b) && SwappedChanges(c, d)
    ensures SwappedChanges(a + c, b + d)
  {
  }

  lemma FieldDiffsSwap(a: Observation, b: Observation)
    ensures SwappedChanges(FieldDiffs(a, b), FieldDiffs(b, a))
  {
    var ab, ba := FieldDiff(a, b, IpAddress), FieldDiff(b, a, IpAddress);
    SwappedConcat(ab, ba, FieldDiff(a, b, MacAddress), FieldDiff(b, a, MacAddress));
    ab, ba := ab + FieldDiff(a, b, MacAddress), ba + FieldDiff(b, a, MacAddress);
    SwappedConcat(ab, ba, FieldDiff(a, b, Hostname), FieldDiff(b, a, Hostname));
    ab, ba := ab + FieldDiff(a, b, Hostname), ba + FieldDiff(b, a, Hostname);
    SwappedConcat(ab, ba, FieldDiff(a, b, Vendor), FieldDiff(b, a, Vendor));
  }

  /**
   * Comparing the other way round exchanges what opened with what closed and the values of every
   * changed field.
   */
  lemma DiffIsSymmetric(a: Observation, b: Observation)
    ensures Diff(a, b).newlyOpen == Diff(b, a).noLongerOpen && Diff(a, b).noLongerOpen == Diff(b, a).newlyOpen
    ensures Diff(a, b).portsCompared == Diff(b, a).portsCompared
    ensures SwappedChanges(Diff(a, b).fields, Diff(b, a).fields) && (Changed(Diff(a, b)) <==> Changed(Diff(b, a)))
  {
    FieldDiffsSwap(a, b);
  }

  // ---------------------------------------------------------------- what a difference reports

  /** Empty and missing count alike. */
  predicate Blank(s: Option<string>) {
    s == None || s == Some("")
  }

  predicate Moved(before: Option<string>, after: Option<string>) {
    before != after && !(Blank(before) && Blank(after))
  }

  /** The change of a field that is not the same in both, with its two values. */
  predicate IsChange(c: FieldChange, a: Observation, b: Observation) {
    match c.field
    case IpAddress => c.before == Some(a.ip) && c.after == Some(b.ip) && a.ip != b.ip
    case MacAddress => c.before == a.mac && c.after == b.mac && Moved(a.mac, b.mac)
    case Hostname => c.before == a.hostname && c.after == b.hostname && Moved(a.hostname, b.hostname)
    case Vendor => c.before == a.vendor && c.after == b.vendor && Moved(a.vendor, b.vendor)
  }

  /** The order in which the fields are listed. */
  function Position(f: Field): nat {
    match f
    case IpAddress => 0
    case MacAddress => 1
    case Hostname => 2
    case Vendor => 3
  }

  predicate InFieldOrder(changes: seq<FieldChange>) {
    forall i, j :: 0 <= i < j < |changes| ==> Position(changes[i].field) < Position(changes[j].field)
  }

  lemma FieldReported(a: Observation, b: Observation, f: Field)
    ensures |FieldDiff(a, b, f)| <= 1
    ensures forall c :: c in FieldDiff(a, b, f) <==> c.field == f && IsChange(c, a, b)
  {
  }

  /** What a list of changes to the first `n` fields says. */
  ghost predicate ReportsBelow(changes: seq<FieldChange>, n: nat, a: Observation, b: Observation) {
    && InFieldOrder(changes)
    && forall c :: c in changes <==> Position(c.field) < n && IsChange(c, a, b)
  }

  lemma OneMoreReported(changes: seq<FieldChange>, a: Observation, b: Observation, f: Field)
    requires ReportsBelow(changes, Position(f), a, b)
    ensures ReportsBelow(changes + FieldDiff(a, b, f), Position(f) + 1, a, b)
  {
    var more := FieldDiff(a, b, f);
    FieldReported(a, b, f);
    assert forall c: FieldChange :: c.field == f <==> Position(c.field) == Position(f);
    assert forall c :: c in changes + more <==> c in changes || c in more;
  }

  lemma AllReported(a: Observation, b: Observation)
    ensures ReportsBelow(FieldDiffs(a, b), 4, a, b)
  {
    var ip, mac, hostname := FieldDiff(a, b, IpAddress), FieldDiff(a, b, MacAddress), FieldDiff(a, b, Hostname);
    assert [] + ip == ip;
    OneMoreReported([], a, b, IpAddress);
    OneMoreReported(ip, a, b, MacAddress);
    OneMoreReported(ip + mac, a, b, Hostname);
    OneMoreReported(ip + mac + hostname, a, b, Vendor);
  }

  /** A difference reports the fields that changed, each once, in this order, and no other. */
  lemma FieldsReported(a: Observation, b: Observation)
    ensures forall c :: c in Diff(a, b).fields <==> IsChange(c, a, b)
    ensures InFieldOrder(Diff(a, b).fields)
  {
    AllReported(a, b);
  }

  /** "22/tcp (ssh)", or "22/tcp" for a service not known. */
  function EntryText(e: PortEntry): string {
    Print(e.key.port) + "/" + (if e.key.protocol == Tcp then "tcp" else "udp")
    + if e.service.Some? && e.service.value != "" then " (" + e.service.value + ")" else ""
  }

  /** Entry `i` of `now` is the last for its port, and `was` has no entry for that port. */
  predicate IsNew(was: seq<PortEntry>, now: seq<PortEntry>, i: nat) {
    && i < |now|
    && (forall j :: i < j < |now| ==> now[j].key != now[i].key)
    && (forall j :: 0 <= j < |was| ==> was[j].key != now[i].key)
  }

  predicate EarlierPort(a: PortKey, b: PortKey) {
    (a.protocol == Tcp && b.protocol == Udp) || (a.protocol == b.protocol && a.port < b.port)
  }

  lemma LabelIsText(e: PortEntry)
    ensures Label(e) == EntryText(e)
  {
    var text := PortText(e.key);
    assert text + "" == text;
    if Truthy(e.service) {
      assert text + (" (" + e.service.value + ")") == text + " (" + e.service.value + ")";
    }
  }

  lemma {:induction false} KeysAreOfEntries(ports: seq<PortEntry>, k: PortKey)
    ensures k in PortLabels(ports) <==> exists i :: 0 <= i < |ports| && ports[i].key == k
  {
    if ports != [] {
      var n := |ports| - 1;
      KeysAreOfEntries(ports[..n], k);
      if i :| 0 <= i < |ports| && ports[i].key == k {
        assert i < n ==> ports[..n][i].key == k;
      }
    }
  }

  /** The last entry for a port gives its label. */
  lemma {:induction false} LabelIsLast(ports: seq<PortEntry>, i: nat)
    requires i < |ports| && forall j :: i < j < |ports| ==> ports[j].key != ports[i].key
    ensures ports[i].key in PortLabels(ports) && PortLabels(ports)[ports[i].key] == EntryText(ports[i])
  {
    var n := |ports| - 1;
    if i < n {
      assert ports[n].key != ports[i].key && ports[..n][i] == ports[i];
      LabelIsLast(ports[..n], i);
    } else {
      LabelIsText(ports[n]);
    }
  }

  lemma {:induction false} LastEntryFor(ports: seq<PortEntry>, k: PortKey) returns (i: nat)
    requires k in PortLabels(ports)
    ensures i < |ports| && ports[i].key == k && forall j :: i < j < |ports| ==> ports[j].key != k
  {
    var n := |ports| - 1;
    if ports[n].key == k {
      i := n;
    } else {
      i := LastEntryFor(ports[..n], k);
    }
  }

  lemma NewLabelsAre(was: seq<PortEntry>, now: seq<PortEntry>)
    ensures NoDuplicates(NewLabels(was, now)) && SortedBy(NewLabels(was, now), LabelRank)
    ensures forall x :: x in NewLabels(was, now) <==> exists k :: k in PortLabels(now) && k !in PortLabels(was) && PortLabels(now)[k] == x
  {
    var keys := KeysNotIn(now, PortLabels(was));
    KeysNotInAre(now, PortLabels(was));
    LabelsAtAre(now, keys);
    var labels := LabelsAt(PortLabels(now), keys);
    SortByArranges(labels, LabelRank);
    SortKeepsDistinct(labels, LabelRank);
  }

  lemma NewIsLabelled(was: seq<PortEntry>, now: seq<PortEntry>, i: nat)
    requires IsNew(was, now, i)
    ensures EntryText(now[i]) in NewLabels(was, now)
  {
    LabelIsLast(now, i);
    KeysAreOfEntries(was, now[i].key);
    NewLabelsAre(was, now);
  }

  lemma LabelledIsNew(was: seq<PortEntry>, now: seq<PortEntry>, x: string) returns (i: nat)
    requires x in NewLabels(was, now)
    ensures IsNew(was, now, i) && EntryText(now[i]) == x
  {
    NewLabelsAre(was, now);
    var k :| k in PortLabels(now) && k !in PortLabels(was) && PortLabels(now)[k] == x;
    i := LastEntryFor(now, k);
    LabelIsLast(now, i);
    KeysAreOfEntries(was, k);
  }

  /** Entries `i` and `j` of `now` are listed at `a` and `b`: the earlier place has the earlier port. */
  lemma NewAreInOrder(was: seq<PortEntry>, now: seq<PortEntry>, i: nat, j: nat, a: nat, b: nat)
    requires i < |now| && j < |now| && a < b < |NewLabels(was, now)|
    requires NewLabels(was, now)[a] == EntryText(now[i]) && NewLabels(was, now)[b] == EntryText(now[j])
    ensures !EarlierPort(now[j].key, now[i].key)
  {
    NewLabelsAre(was, now);
    LabelIsText(now[i]);
    LabelIsText(now[j]);
    LabelSortsByPort(now[i]);
    LabelSortsByPort(now[j]);
  }

  /**
   * The ports reported as open in `now` and not in `was`: one text for the last entry of each port
   * `was` does not list, and no other text.
   */
  lemma PortsReported(was: seq<PortEntry>, now: seq<PortEntry>)
    ensures NoDuplicates(NewLabels(was, now))
    ensures forall x :: x in NewLabels(was, now) <==> exists i: nat :: IsNew(was, now, i) && x == EntryText(now[i])
  {
    NewLabelsAre(was, now);
    forall x | x in NewLabels(was, now) ensures exists i: nat :: IsNew(was, now, i) && x == EntryText(now[i]) {
      var i := LabelledIsNew(was, now, x);
    }
    forall i: nat | IsNew(was, now, i) ensures EntryText(now[i]) in NewLabels(was, now) {
      NewIsLabelled(was, now, i);
    }
  }

  /** Both list ports, and one of them lists a port the other does not. */
  ghost predicate PortsDiffer(a: Option<seq<PortEntry>>, b: Option<seq<PortEntry>>) {
    && a.Some? && b.Some?
    && ((exists i: nat :: IsNew(a.value, b.value, i)) || exists i: nat :: IsNew(b.value, a.value, i))
  }

  /** A host counts as changed exactly when a field moved or the ports differ. */
  lemma ChangedIff(a: Observation, b: Observation)
    ensures Changed(Diff(a, b)) <==> (exists c :: IsChange(c, a, b)) || PortsDiffer(a.ports, b.ports)
  {
    var d := Diff(a, b);
    FieldsReported(a, b);
    assert d.fields != [] <==> exists c :: c in d.fields by {
      assert d.fields != [] ==> d.fields[0] in d.fields;
    }
    if a.ports.Some? && b.ports.Some? {
      SomeReported(a.ports.value, b.ports.value);
      SomeReported(b.ports.value, a.ports.value);
    }
  }

  lemma SomeReported(was: seq<PortEntry>, now: seq<PortEntry>)
    ensures NewLabels(was, now) != [] <==> exists i: nat :: IsNew(was, now, i)
  {
    if NewLabels(was, now) != [] {
      var i := LabelledIsNew(was, now, NewLabels(was, now)[0]);
    }
    if i: nat :| IsNew(was, now, i) {
      NewIsLabelled(was, now, i);
    }
  }
}
