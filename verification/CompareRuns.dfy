/** What a later scan saw differently from an earlier one (`compare_runs`). */
module CompareRuns {
  import opened Wrappers
  import opened Sequences
  import opened Records
  import opened Validation
  import opened History

  datatype RunStatus = Running | Succeeded | Failed | TimedOut | Rejected

  datatype RunInfo = RunInfo(id: nat, subnet: string, status: RunStatus, scannedPorts: Option<bool>)

  /** The identity resolved when the scan was reconciled; the address when there was none. */
  datatype HostKey = ByDevice(id: nat) | ByAddress(ip: string)

  function KeyOf(o: Observation): HostKey {
    if o.deviceId.Some? then ByDevice(o.deviceId.value) else ByAddress(o.ip)
  }

  type Sighted = map<HostKey, Observation>

  /** `{_key(row): row for row in rows if row.present}`: a later row replaces an earlier one. */
  function SightedBy(rows: seq<Observation>): Sighted {
    if rows == [] then map[]
    else
      var before, last := SightedBy(rows[..|rows| - 1]), rows[|rows| - 1];
      if last.present then before[KeyOf(last) := last] else before
  }

  /** The keys of that dictionary in insertion order. */
  function KeyOrder(rows: seq<Observation>): seq<HostKey> {
    if rows == [] then []
    else
      var before, last := KeyOrder(rows[..|rows| - 1]), rows[|rows| - 1];
      if last.present && KeyOf(last) !in before then before + [KeyOf(last)] else before
  }

  lemma {:induction false} KeyOrderIsTheKeys(rows: seq<Observation>)
    ensures NoDuplicates(KeyOrder(rows))
    ensures forall k :: k in KeyOrder(rows) <==> k in SightedBy(rows)
    ensures forall k :: k in SightedBy(rows) ==> KeyOf(SightedBy(rows)[k]) == k
  {
    if rows != [] {
      KeyOrderIsTheKeys(rows[..|rows| - 1]);
    }
  }

  /** A present row puts its key in the dictionary, whatever comes later. */
  lemma {:induction false} PresentIsSighted(rows: seq<Observation>, i: nat)
    requires i < |rows| && rows[i].present
    ensures KeyOf(rows[i]) in SightedBy(rows)
  {
    if i < |rows| - 1 {
      PresentIsSighted(rows[..|rows| - 1], i);
    }
  }

  // ---------------------------------------------------------------- deltas

  datatype Lines = NoLines | OpenPorts(ports: Option<seq<PortEntry>>) | DiffLines(diff: ObservationDiff)

  datatype HostDelta = HostDelta(deviceId: Option<nat>, name: string, ip: string, lines: Lines)

  function DeltaKey(d: HostDelta): HostKey {
    if d.deviceId.Some? then ByDevice(d.deviceId.value) else ByAddress(d.ip)
  }

  /** `names` holds the current name of each device still in the inventory. */
  function Delta(row: Observation, names: map<nat, string>, lines: Lines): HostDelta {
    var known := if row.deviceId.Some? && row.deviceId.value in names then names[row.deviceId.value] else "";
    HostDelta(row.deviceId,
              if known != "" then known else if Truthy(row.hostname) then row.hostname.value else row.ip,
              row.ip, lines)
  }

  /**
   * `tuple(ip_address(...).packed)` orders addresses by value; the one-byte tuple `(255,)` of a
   * text that is no address comes before 255.0.0.0 and after everything below it.
   */
  function AddressRank(ip: string): int {
    match ParseAddress(ip)
    case Some(a) => 2 * a
    case None => 2 * 0xFF00_0000 - 1
  }

  function Rank(d: HostDelta): int {
    AddressRank(d.ip)
  }

  type Range = string -> bool

  /** `_in_network(address, subnet)`. */
  function Covered(subnet: string): Range {
    (ip: string) => match (ParseAddress(ip), ParseLoose(subnet)) {
      case (Some(a), Some(n)) => Contains(n, a)
      case _ => false
    }
  }

  /** The difference shown; ports only when both scans checked them. */
  function ShownDiff(before: Observation, after: Observation, portsCompared: bool): ObservationDiff {
    if portsCompared then Diff(before, after) else ObservationDiff(Diff(before, after).fields, [], [], false)
  }

  /** A pass over a dictionary that keeps a delta for some keys. */
  function Pick(keys: seq<HostKey>, n: nat, pick: Picker): seq<HostDelta>
    requires n <= |keys|
  {
    if n == 0 then []
    else Pick(keys, n - 1, pick) + match pick(keys[n - 1]) case Some(d) => [d] case None => []
  }

  datatype Inputs = Inputs(before: Sighted, after: Sighted, covered: Range, portsCompared: bool, names: map<nat, string>)

  function AddedDelta(c: Inputs, k: HostKey): Option<HostDelta> {
    if k in c.after && k !in c.before then Some(Delta(c.after[k], c.names, OpenPorts(c.after[k].ports))) else None
  }

  function GoneDelta(c: Inputs, k: HostKey, inRange: bool): Option<HostDelta> {
    if k in c.before && k !in c.after && c.covered(c.before[k].ip) == inRange then Some(Delta(c.before[k], c.names, NoLines)) else None
  }

  function ChangedDelta(c: Inputs, k: HostKey): Option<HostDelta> {
    if k in c.before && k in c.after && Changed(ShownDiff(c.before[k], c.after[k], c.portsCompared))
    then Some(Delta(c.after[k], c.names, DiffLines(ShownDiff(c.before[k], c.after[k], c.portsCompared))))
    else None
  }

  type Picker = HostKey -> Option<HostDelta>

  function AddedBy(c: Inputs): Picker {
    (k: HostKey) => AddedDelta(c, k)
  }

  function GoneBy(c: Inputs, inRange: bool): Picker {
    (k: HostKey) => GoneDelta(c, k, inRange)
  }

  function ChangedBy(c: Inputs): Picker {
    (k: HostKey) => ChangedDelta(c, k)
  }

  // ---------------------------------------------------------------- the comparison

  datatype Comparison = Comparison(
    added: seq<HostDelta>, missing: seq<HostDelta>, outside: seq<HostDelta>, changed: seq<HostDelta>, unchangedCount: nat,
    portsCompared: bool, comparable: bool)

  predicate HasHostResults(run: RunInfo, count: nat) {
    run.status == Succeeded && count > 0
  }

  function InputsOf(base: RunInfo, target: RunInfo, baseRows: seq<Observation>, targetRows: seq<Observation>, names: map<nat, string>): Inputs {
    Inputs(SightedBy(baseRows), SightedBy(targetRows), Covered(target.subnet),
           base.scannedPorts == Some(true) && target.scannedPorts == Some(true), names)
  }

  /** The keys of each class. */
  function Picked(keys: set<HostKey>, pick: Picker): set<HostKey> {
    set k | k in keys && pick(k).Some?
  }

  function AddedKeys(c: Inputs): set<HostKey> {
    Picked(c.after.Keys, AddedBy(c))
  }

  function GoneKeys(c: Inputs, inRange: bool): set<HostKey> {
    Picked(c.before.Keys, GoneBy(c, inRange))
  }

  function ChangedKeys(c: Inputs): set<HostKey> {
    Picked(c.before.Keys * c.after.Keys, ChangedBy(c))
  }

  function UnchangedKeys(c: Inputs): set<HostKey> {
    (c.before.Keys * c.after.Keys) - ChangedKeys(c)
  }

  /** Exactly one delta for each key. */
  ghost predicate Collects(deltas: seq<HostDelta>, keys: set<HostKey>, pick: Picker) {
    && NoDuplicates(deltas)
    && (forall d :: d in deltas ==> DeltaKey(d) in keys && pick(DeltaKey(d)) == Some(d))
    && (forall k :: k in keys ==> pick(k).Some? && pick(k).value in deltas)
  }

  /** The same, sorted by address. */
  ghost predicate Lists(deltas: seq<HostDelta>, keys: set<HostKey>, pick: Picker) {
    Collects(deltas, keys, pick) && SortedBy(deltas, Rank)
  }

  /** `r` lists the classes of `c`. */
  ghost predicate ListsClasses(r: Comparison, c: Inputs) {
    && Lists(r.added, AddedKeys(c), AddedBy(c))
    && Lists(r.missing, GoneKeys(c, true), GoneBy(c, true))
    && Lists(r.outside, GoneKeys(c, false), GoneBy(c, false))
    && Lists(r.changed, ChangedKeys(c), ChangedBy(c))
  }

  /** The comparison of two runs, up to the order of changed hosts that share an address. */
  ghost predicate Compares(r: Comparison, base: RunInfo, target: RunInfo, baseRows: seq<Observation>, targetRows: seq<Observation>, names: map<nat, string>) {
    var c := InputsOf(base, target, baseRows, targetRows, names);
    && r.portsCompared == c.portsCompared
    && r.comparable == (HasHostResults(base, |baseRows|) && HasHostResults(target, |targetRows|))
    && if r.comparable then
      ListsClasses(r, c) && r.unchangedCount == |UnchangedKeys(c)|
    else
      r.added == [] && r.missing == [] && r.outside == [] && r.changed == [] && r.unchangedCount == 0
  }

  // ---------------------------------------------------------------- passes list their keys

  /** `pick` makes deltas that carry the key they were made for. */
  ghost predicate KeepsKeys(pick: Picker) {
    forall k :: pick(k).Some? ==> DeltaKey(pick(k).value) == k
  }

  lemma PicksKeepKeys(rows: seq<Observation>, others: seq<Observation>, c: Inputs)
    requires c.before == SightedBy(rows) && c.after == SightedBy(others)
    ensures KeepsKeys(AddedBy(c)) && KeepsKeys(ChangedBy(c))
    ensures KeepsKeys(GoneBy(c, true)) && KeepsKeys(GoneBy(c, false))
  {
    KeyOrderIsTheKeys(rows);
    KeyOrderIsTheKeys(others);
  }

  lemma CollectsOneMore(deltas: seq<HostDelta>, keys: set<HostKey>, pick: Picker, k: HostKey)
    requires Collects(deltas, keys, pick) && KeepsKeys(pick) && k !in keys && pick(k).Some?
    ensures Collects(deltas + [pick(k).value], keys + {k}, pick)
  {
    var d := pick(k).value;
    assert d !in deltas;
    AppendKeepsDistinct(deltas, d);
  }

  /** A pass over distinct keys collects the picked ones. */
  lemma {:induction false} PickCollects(keys: seq<HostKey>, n: nat, pick: Picker)
    requires n <= |keys| && NoDuplicates(keys) && KeepsKeys(pick)
    ensures Collects(Pick(keys, n, pick), Picked(Elements(keys[..n]), pick), pick)
  {
    if n > 0 {
      PickCollects(keys, n - 1, pick);
      OneMore(keys, n - 1);
      var before, k := Pick(keys, n - 1, pick), keys[n - 1];
      var picked := Picked(Elements(keys[..n - 1]), pick);
      if pick(k).Some? {
        assert k !in keys[..n - 1];
        CollectsOneMore(before, picked, pick, k);
        assert Picked(Elements(keys[..n]), pick) == picked + {k};
      } else {
        assert before + [] == before;
        assert Picked(Elements(keys[..n]), pick) == picked;
      }
    }
  }

  lemma SortedCollects(deltas: seq<HostDelta>, keys: set<HostKey>, pick: Picker)
    requires Collects(deltas, keys, pick)
    ensures Lists(SortBy(deltas, Rank), keys, pick)
  {
    SortByArranges(deltas, Rank);
    SortKeepsDistinct(deltas, Rank);
  }

  lemma SortedClasses(c: Inputs, added: seq<HostDelta>, missing: seq<HostDelta>, outside: seq<HostDelta>, changed: seq<HostDelta>)
    requires Collects(added, AddedKeys(c), AddedBy(c)) && Collects(changed, ChangedKeys(c), ChangedBy(c))
    requires Collects(missing, GoneKeys(c, true), GoneBy(c, true)) && Collects(outside, GoneKeys(c, false), GoneBy(c, false))
    ensures Lists(SortBy(added, Rank), AddedKeys(c), AddedBy(c))
    ensures Lists(SortBy(missing, Rank), GoneKeys(c, true), GoneBy(c, true))
    ensures Lists(SortBy(outside, Rank), GoneKeys(c, false), GoneBy(c, false))
    ensures Lists(SortBy(changed, Rank), ChangedKeys(c), ChangedBy(c))
  {
    SortedCollects(added, AddedKeys(c), AddedBy(c));
    SortedCollects(missing, GoneKeys(c, true), GoneBy(c, true));
    SortedCollects(outside, GoneKeys(c, false), GoneBy(c, false));
    SortedCollects(changed, ChangedKeys(c), ChangedBy(c));
  }

  /** A pass over a dictionary collects the picked keys. */
  lemma PickCollectsAll(rows: seq<Observation>, pick: Picker)
    requires KeepsKeys(pick)
    ensures Collects(Pick(KeyOrder(rows), |KeyOrder(rows)|, pick), Picked(SightedBy(rows).Keys, pick), pick)
  {
    var keys := KeyOrder(rows);
    KeyOrderIsTheKeys(rows);
    PickCollects(keys, |keys|, pick);
    assert keys[..|keys|] == keys;
    assert Elements(keys) == SightedBy(rows).Keys;
  }

  lemma {:induction false} CollectedCount(deltas: seq<HostDelta>, keys: set<HostKey>, pick: Picker)
    requires Collects(deltas, keys, pick) && KeepsKeys(pick)
    ensures |deltas| == |keys|
    decreases |deltas|
  {
    if deltas == [] {
      assert keys == {};
    } else {
      var rest, last := deltas[..|deltas| - 1], deltas[|deltas| - 1];
      InitLast(deltas);
      assert last !in rest;
      CollectedCount(rest, keys - {DeltaKey(last)}, pick);
    }
  }

  // ---------------------------------------------------------------- the method

  /** `compare_runs`; `names` stands for the label query over the devices both scans mention. */
  method CompareRuns(base: RunInfo, target: RunInfo, baseRows: seq<Observation>, targetRows: seq<Observation>, names: map<nat, string>)
    returns (r: Comparison)
    ensures Compares(r, base, target, baseRows, targetRows, names)
    ensures r.comparable <==> base.status == Succeeded && baseRows != [] && target.status == Succeeded && targetRows != []
    ensures r.portsCompared <==> base.scannedPorts == Some(true) && target.scannedPorts == Some(true)
    ensures !r.comparable ==> r.added + r.missing + r.outside + r.changed == [] && r.unchangedCount == 0
  {
    var comparable := HasHostResults(base, |baseRows|) && HasHostResults(target, |targetRows|);
    var c := InputsOf(base, target, baseRows, targetRows, names);
    var added := CollectAdded(c, targetRows);
    var missing, outside := CollectGone(c, baseRows, targetRows);
    var changed, unchangedCount := CompareCommon(c, baseRows, targetRows);
    r := Comparison(
      if comparable then SortBy(added, Rank) else [],
      if comparable then SortBy(missing, Rank) else [],
      if comparable then SortBy(outside, Rank) else [],
      if comparable then SortBy(changed, Rank) else [],
      if comparable then unchangedCount else 0,
      c.portsCompared, comparable);
    SortedClasses(c, added, missing, outside, changed);
  }

  method CollectAdded(c: Inputs, targetRows: seq<Observation>) returns (added: seq<HostDelta>)
    requires c.after == SightedBy(targetRows)
    ensures Collects(added, AddedKeys(c), AddedBy(c))
  {
    var order := KeyOrder(targetRows);
    KeyOrderIsTheKeys(targetRows);
    added := [];
    for i := 0 to |order|
      invariant added == Pick(order, i, AddedBy(c))
    {
      var key := order[i];
      if key !in c.before {
        added := added + [Delta(c.after[key], c.names, OpenPorts(c.after[key].ports))];
      }
    }
    PickCollectsAll(targetRows, AddedBy(c));
  }

  lemma GoneCollected(c: Inputs, baseRows: seq<Observation>, targetRows: seq<Observation>)
    requires c.before == SightedBy(baseRows) && c.after == SightedBy(targetRows)
    ensures var order := KeyOrder(baseRows);
      && Collects(Pick(order, |order|, GoneBy(c, true)), GoneKeys(c, true), GoneBy(c, true))
      && Collects(Pick(order, |order|, GoneBy(c, false)), GoneKeys(c, false), GoneBy(c, false))
  {
    PicksKeepKeys(baseRows, targetRows, c);
    PickCollectsAll(baseRows, GoneBy(c, true));
    PickCollectsAll(baseRows, GoneBy(c, false));
  }

  method CollectGone(c: Inputs, baseRows: seq<Observation>, ghost targetRows: seq<Observation>)
    returns (missing: seq<HostDelta>, outside: seq<HostDelta>)
    requires c.before == SightedBy(baseRows) && c.after == SightedBy(targetRows)
    ensures Collects(missing, GoneKeys(c, true), GoneBy(c, true))
    ensures Collects(outside, GoneKeys(c, false), GoneBy(c, false))
  {
    var order := KeyOrder(baseRows);
    KeyOrderIsTheKeys(baseRows);
    missing, outside := [], [];
    for i := 0 to |order|
      invariant missing == Pick(order, i, GoneBy(c, true))
      invariant outside == Pick(order, i, GoneBy(c, false))
    {
      var key := order[i];
      if key in c.after {
        continue;
      }
      if c.covered(c.before[key].ip) {
        missing := missing + [Delta(c.before[key], c.names, NoLines)];
      } else {
        outside := outside + [Delta(c.before[key], c.names, NoLines)];
      }
    }
    GoneCollected(c, baseRows, targetRows);
  }

  /** What the loop over the common keys has found among those in `done`. */
  ghost predicate Compared(done: set<HostKey>, pick: Picker, changed: seq<HostDelta>, unchangedCount: nat) {
    Collects(changed, Picked(done, pick), pick) && unchangedCount == |done - Picked(done, pick)|
  }

  lemma OneMoreChanged(done: set<HostKey>, pick: Picker, changed: seq<HostDelta>, unchangedCount: nat, key: HostKey)
    requires KeepsKeys(pick) && Compared(done, pick, changed, unchangedCount) && key !in done && pick(key).Some?
    ensures Compared(done + {key}, pick, changed + [pick(key).value], unchangedCount)
  {
    var picked := Picked(done, pick);
    CollectsOneMore(changed, picked, pick, key);
    assert Picked(done + {key}, pick) == picked + {key};
    assert (done + {key}) - (picked + {key}) == done - picked;
  }

  lemma OneMoreUnchanged(done: set<HostKey>, pick: Picker, changed: seq<HostDelta>, unchangedCount: nat, key: HostKey)
    requires Compared(done, pick, changed, unchangedCount) && key !in done && pick(key).None?
    ensures Compared(done + {key}, pick, changed, unchangedCount + 1)
  {
    var picked := Picked(done, pick);
    assert Picked(done + {key}, pick) == picked;
    assert (done + {key}) - picked == (done - picked) + {key};
  }

  lemma MoveOne(rest: set<HostKey>, done: set<HostKey>, key: HostKey)
    requires rest !! done && key in rest
    ensures (rest - {key}) !! (done + {key}) && (rest - {key}) + (done + {key}) == rest + done
  {
  }

  /** The loop over the keys both scans saw, in no particular order. */
  method CompareCommon(c: Inputs, ghost baseRows: seq<Observation>, ghost targetRows: seq<Observation>)
    returns (changed: seq<HostDelta>, unchangedCount: nat)
    requires c.before == SightedBy(baseRows) && c.after == SightedBy(targetRows)
    ensures Collects(changed, ChangedKeys(c), ChangedBy(c))
    ensures unchangedCount == |UnchangedKeys(c)|
  {
    changed, unchangedCount := [], 0;
    var rest := c.before.Keys * c.after.Keys;
    ghost var done: set<HostKey> := {};
    PicksKeepKeys(baseRows, targetRows, c);
    while rest != {}
      invariant rest !! done && rest + done == c.before.Keys * c.after.Keys
      invariant Compared(done, ChangedBy(c), changed, unchangedCount)
      decreases rest
    {
      var key :| key in rest;
      var diff := ShownDiff(c.before[key], c.after[key], c.portsCompared);
      if Changed(diff) {
        OneMoreChanged(done, ChangedBy(c), changed, unchangedCount, key);
        changed := changed + [Delta(c.after[key], c.names, DiffLines(diff))];
      } else {
        OneMoreUnchanged(done, ChangedBy(c), changed, unchangedCount, key);
        unchangedCount := unchangedCount + 1;
      }
      MoveOne(rest, done, key);
      rest, done := rest - {key}, done + {key};
    }
    assert done == c.before.Keys * c.after.Keys;
  }

  // ---------------------------------------------------------------- what a comparison adds up to

  /** Every key of either scan is in exactly one of the five classes. */
  lemma EveryKeyInOneClass(c: Inputs)
    ensures AddedKeys(c) + ChangedKeys(c) + UnchangedKeys(c) == c.after.Keys
    ensures GoneKeys(c, true) + GoneKeys(c, false) + ChangedKeys(c) + UnchangedKeys(c) == c.before.Keys
    ensures AddedKeys(c) !! GoneKeys(c, true) !! GoneKeys(c, false) !! ChangedKeys(c) !! UnchangedKeys(c)
  {
  }

  lemma ClassesAddUp(c: Inputs)
    ensures |AddedKeys(c)| + |ChangedKeys(c)| + |UnchangedKeys(c)| == |c.after.Keys|
    ensures |GoneKeys(c, true)| + |GoneKeys(c, false)| + |ChangedKeys(c)| + |UnchangedKeys(c)| == |c.before.Keys|
  {
    EveryKeyInOneClass(c);
    DisjointUnion(AddedKeys(c), ChangedKeys(c), UnchangedKeys(c));
    DisjointUnion(GoneKeys(c, true) + GoneKeys(c, false), ChangedKeys(c), UnchangedKeys(c));
  }

  lemma DisjointUnion(a: set<HostKey>, b: set<HostKey>, c: set<HostKey>)
    requires a !! b !! c
    ensures |a + b + c| == |a| + |b| + |c|
  {
  }

  function DeltaKeys(deltas: seq<HostDelta>): set<HostKey> {
    set d | d in deltas :: DeltaKey(d)
  }

  lemma CollectedKeys(deltas: seq<HostDelta>, keys: set<HostKey>, pick: Picker)
    requires Collects(deltas, keys, pick) && KeepsKeys(pick)
    ensures DeltaKeys(deltas) == keys && |deltas| == |keys|
  {
    CollectedCount(deltas, keys, pick);
    forall k | k in keys ensures k in DeltaKeys(deltas) {
      assert pick(k).value in deltas && DeltaKey(pick(k).value) == k;
    }
  }

  /** Each list has one entry for each key of its class. */
  lemma ListedKeys(r: Comparison, c: Inputs, rows: seq<Observation>, others: seq<Observation>)
    requires ListsClasses(r, c) && c.before == SightedBy(rows) && c.after == SightedBy(others)
    ensures DeltaKeys(r.added) == AddedKeys(c) && |r.added| == |AddedKeys(c)|
    ensures DeltaKeys(r.missing) == GoneKeys(c, true) && |r.missing| == |GoneKeys(c, true)|
    ensures DeltaKeys(r.outside) == GoneKeys(c, false) && |r.outside| == |GoneKeys(c, false)|
    ensures DeltaKeys(r.changed) == ChangedKeys(c) && |r.changed| == |ChangedKeys(c)|
  {
    PicksKeepKeys(rows, others, c);
    CollectedKeys(r.added, AddedKeys(c), AddedBy(c));
    CollectedKeys(r.missing, GoneKeys(c, true), GoneBy(c, true));
    CollectedKeys(r.outside, GoneKeys(c, false), GoneBy(c, false));
    CollectedKeys(r.changed, ChangedKeys(c), ChangedBy(c));
  }

  lemma ListsAddUp(r: Comparison, c: Inputs, rows: seq<Observation>, others: seq<Observation>)
    requires ListsClasses(r, c) && r.unchangedCount == |UnchangedKeys(c)| && c.before == SightedBy(rows) && c.after == SightedBy(others)
    ensures |r.added| + |r.changed| + r.unchangedCount == |c.after|
    ensures |r.missing| + |r.outside| + |r.changed| + r.unchangedCount == |c.before|
  {
    ClassesAddUp(c);
    ListedKeys(r, c, rows, others);
    assert |c.after| == |c.after.Keys| && |c.before| == |c.before.Keys|;
  }

  /** The lists and the count account for every host either scan saw, each once. */
  lemma ComparisonAddsUp(r: Comparison, base: RunInfo, target: RunInfo, baseRows: seq<Observation>, targetRows: seq<Observation>, names: map<nat, string>)
    requires Compares(r, base, target, baseRows, targetRows, names) && r.comparable
    ensures |r.added| + |r.changed| + r.unchangedCount == |SightedBy(targetRows)|
    ensures |r.missing| + |r.outside| + |r.changed| + r.unchangedCount == |SightedBy(baseRows)|
  {
    ListsAddUp(r, InputsOf(base, target, baseRows, targetRows, names), baseRows, targetRows);
  }

  lemma ClassesSwap(c: Inputs, d: Inputs)
    requires d.before == c.after && d.after == c.before && c.portsCompared == d.portsCompared
    ensures GoneKeys(d, true) + GoneKeys(d, false) == AddedKeys(c)
    ensures ChangedKeys(d) == ChangedKeys(c) && UnchangedKeys(d) == UnchangedKeys(c)
  {
    forall k | k in c.before && k in c.after
      ensures ChangedDelta(c, k).Some? <==> ChangedDelta(d, k).Some?
    {
      DiffIsSymmetric(c.before[k], c.after[k]);
    }
    assert ChangedKeys(d) == ChangedKeys(c);
  }

  lemma SwappedDiffs(c: Inputs, d: Inputs, changed: seq<HostDelta>, other: seq<HostDelta>)
    requires d.before == c.after && d.after == c.before && c.portsCompared == d.portsCompared
    requires Collects(changed, ChangedKeys(c), ChangedBy(c)) && Collects(other, ChangedKeys(d), ChangedBy(d))
    ensures forall x, y :: x in changed && y in other && DeltaKey(x) == DeltaKey(y) ==> Reversed(x, y)
  {
    forall x, y | x in changed && y in other && DeltaKey(x) == DeltaKey(y) ensures Reversed(x, y) {
      var k := DeltaKey(x);
      assert ChangedDelta(c, k) == Some(x) && ChangedDelta(d, k) == Some(y);
      DiffIsSymmetric(c.before[k], c.after[k]);
    }
  }

  /** Two reports of one host's change, in opposite directions. */
  predicate Reversed(x: HostDelta, y: HostDelta) {
    && x.lines.DiffLines? && y.lines.DiffLines?
    && x.lines.diff.newlyOpen == y.lines.diff.noLongerOpen && x.lines.diff.noLongerOpen == y.lines.diff.newlyOpen
    && SwappedChanges(x.lines.diff.fields, y.lines.diff.fields)
  }

  /**
   * Comparing the runs the other way round: what was added is now missing or outside, the same
   * hosts changed, and for each of them what opened is what closed and every field changed back.
   */
  lemma SwappingTheRuns(r: Comparison, s: Comparison, base: RunInfo, target: RunInfo,
                        baseRows: seq<Observation>, targetRows: seq<Observation>, names: map<nat, string>)
    requires Compares(r, base, target, baseRows, targetRows, names)
    requires Compares(s, target, base, targetRows, baseRows, names)
    ensures r.comparable == s.comparable && r.portsCompared == s.portsCompared
    ensures DeltaKeys(s.missing) + DeltaKeys(s.outside) == DeltaKeys(r.added)
    ensures DeltaKeys(r.missing) + DeltaKeys(r.outside) == DeltaKeys(s.added)
    ensures DeltaKeys(r.changed) == DeltaKeys(s.changed) && r.unchangedCount == s.unchangedCount
    ensures forall x, y :: x in r.changed && y in s.changed && DeltaKey(x) == DeltaKey(y) ==> Reversed(x, y)
  {
    if r.comparable {
      var c := InputsOf(base, target, baseRows, targetRows, names);
      var d := InputsOf(target, base, targetRows, baseRows, names);
      ClassesSwap(c, d);
      ClassesSwap(d, c);
      ListedKeys(r, c, baseRows, targetRows);
      ListedKeys(s, d, targetRows, baseRows);
      SwappedDiffs(c, d, r.changed, s.changed);
    }
  }
}
