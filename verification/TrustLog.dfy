/**
 * Credential assignments, trusted host keys and the change log, on values: replaying the log
 * rebuilds the tables (app/modules/credentials).
 */
module TrustLog {
  import opened Wrappers
  import opened Sequences
  import opened Texts

  const MAX_SUBJECT := 255

  datatype Assignment = Assignment(device: nat, credential: nat)

  datatype HostKey = HostKey(device: nat, keyType: string, keyBase64: string, fingerprint: string)

  datatype PresentedKey = PresentedKey(keyType: string, keyBase64: string, fingerprint: string)

  datatype Event =
    | CredentialCreated(subject: string)
    | CredentialDeleted(subject: string)
    | CredentialAssigned(device: nat, subject: string)
    | CredentialUnassigned(device: nat, subject: string)
    | HostKeyTrusted(device: nat, subject: string, keyType: string)
    | HostKeyRevoked(device: nat)
    | DeviceRemoved(device: nat)

  /** `devices` says of each stored device whether it is soft-deleted; `credentials` holds names. */
  datatype State = State(
    devices: map<nat, bool>, credentials: map<nat, string>, assignments: seq<Assignment>, hostKeys: seq<HostKey>, log: seq<Event>)

  const EMPTY := State(map[], map[], [], [], [])

  /** `subject[:255]`. */
  function Subject(s: string): string {
    if |s| > MAX_SUBJECT then s[..MAX_SUBJECT] else s
  }

  // ---------------------------------------------------------------- requests

  datatype Request =
    | Create(id: nat, name: string, usable: bool)
    | Delete(credential: nat)
    | Assign(device: nat, credential: nat)
    | Unassign(device: nat, credential: nat)
    | Trust(device: nat, presented: Option<PresentedKey>, reviewed: string)
    | Revoke(device: nat)
    | Discover(device: nat)
    | Remove(device: nat)

  predicate Live(s: State, device: nat) {
    device in s.devices && !s.devices[device]
  }

  predicate NameTaken(s: State, name: string) {
    exists id :: id in s.credentials && s.credentials[id] == name
  }

  function Create(s: State, id: nat, name: string, usable: bool): State {
    if Strip(name) == "" || !usable || NameTaken(s, Strip(name)) || id in s.credentials then s
    else s.(credentials := s.credentials[id := Strip(name)], log := s.log + [CredentialCreated(Subject(Strip(name)))])
  }

  function DeviceOf(a: Assignment): int {
    a.device
  }

  predicate Uses(a: Assignment, credential: nat) {
    a.credential == credential
  }

  type RowFilter = Assignment -> bool

  function Users(credential: nat): RowFilter {
    (a: Assignment) => Uses(a, credential)
  }

  function Others(credential: nat): RowFilter {
    (a: Assignment) => !Uses(a, credential)
  }

  function AllBut(row: Assignment): RowFilter {
    (a: Assignment) => a != row
  }

  /** The assignments of a credential, by device. */
  function AssignedTo(rows: seq<Assignment>, credential: nat): seq<Assignment> {
    SortBy(Filter(rows, Users(credential)), DeviceOf)
  }

  /** One event per device, for the first `n`. */
  function UnassignEvents(rows: seq<Assignment>, n: nat, name: string): seq<Event>
    requires n <= |rows|
  {
    if n == 0 then [] else UnassignEvents(rows, n - 1, name) + [CredentialUnassigned(rows[n - 1].device, Subject(name))]
  }

  /**
   * What deleting a credential adds to the log: the devices that held it, in order, each losing it,
   * and then the deletion.
   */
  ghost predicate DeletionLogged(before: seq<Event>, after: seq<Event>, rows: seq<Assignment>, credential: nat, name: string) {
    && |before| < |after| && after[..|before|] == before && after[|after| - 1] == CredentialDeleted(Subject(name))
    && (forall i :: |before| <= i < |after| - 1 ==>
      after[i].CredentialUnassigned? && after[i].subject == Subject(name) && Assignment(after[i].device, credential) in rows)
    && (forall i, j :: |before| <= i < j < |after| - 1 ==> after[i].device <= after[j].device)
    && (forall a :: a in rows && a.credential == credential ==> CredentialUnassigned(a.device, Subject(name)) in after[|before|..])
    && |after| - |before| - 1 == |Filter(rows, (a: Assignment) => a.credential == credential)|
  }

  lemma {:induction false} UnassignEventsAt(rows: seq<Assignment>, n: nat, name: string)
    requires n <= |rows|
    ensures |UnassignEvents(rows, n, name)| == n
    ensures forall i :: 0 <= i < n ==> UnassignEvents(rows, n, name)[i] == CredentialUnassigned(rows[i].device, Subject(name))
  {
    if n > 0 {
      UnassignEventsAt(rows, n - 1, name);
    }
  }

  /** The rows of a credential, each once, by device. */
  lemma AssignedToAre(rows: seq<Assignment>, credential: nat)
    ensures var affected := AssignedTo(rows, credential);
      && (forall a :: a in affected <==> a in rows && a.credential == credential)
      && (forall i, j :: 0 <= i < j < |affected| ==> affected[i].device <= affected[j].device)
      && |affected| == |Filter(rows, (a: Assignment) => a.credential == credential)|
  {
    var affected := AssignedTo(rows, credential);
    SortByArranges(Filter(rows, Users(credential)), DeviceOf);
    FilterAlikeWithin(rows, Users(credential), (a: Assignment) => a.credential == credential);
    forall i, j | 0 <= i < j < |affected| ensures affected[i].device <= affected[j].device {
      assert DeviceOf(affected[i]) <= DeviceOf(affected[j]);
    }
  }

  lemma DeletionIsLogged(log: seq<Event>, rows: seq<Assignment>, credential: nat, name: string)
    ensures var affected := AssignedTo(rows, credential);
      DeletionLogged(log, log + UnassignEvents(affected, |affected|, name) + [CredentialDeleted(Subject(name))], rows, credential, name)
  {
    var affected := AssignedTo(rows, credential);
    AssignedToAre(rows, credential);
    UnassignEventsAt(affected, |affected|, name);
    EventsLogDeletion(log, affected, UnassignEvents(affected, |affected|, name), rows, credential, name);
  }

  lemma EventsLogDeletion(log: seq<Event>, affected: seq<Assignment>, events: seq<Event>, rows: seq<Assignment>, credential: nat, name: string)
    requires forall a :: a in affected <==> a in rows && a.credential == credential
    requires forall i, j :: 0 <= i < j < |affected| ==> affected[i].device <= affected[j].device
    requires |affected| == |Filter(rows, (a: Assignment) => a.credential == credential)| == |events|
    requires forall i :: 0 <= i < |events| ==> events[i] == CredentialUnassigned(affected[i].device, Subject(name))
    ensures DeletionLogged(log, log + events + [CredentialDeleted(Subject(name))], rows, credential, name)
  {
    var after := log + events + [CredentialDeleted(Subject(name))];
    assert after[..|log|] == log;
    assert forall i :: |log| <= i < |after| - 1 ==> after[i] == events[i - |log|];
    forall i | |log| <= i < |after| - 1 ensures Assignment(after[i].device, credential) in rows {
      assert affected[i - |log|] in affected;
    }
    forall a | a in rows && a.credential == credential ensures CredentialUnassigned(a.device, Subject(name)) in after[|log|..] {
      var i :| 0 <= i < |affected| && affected[i] == a;
      assert after[|log|..][i] == events[i];
    }
  }

  /** `delete_credential`; deleting the credential row erases its assignments. */
  function Delete(s: State, credential: nat): State {
    if credential !in s.credentials then s
    else
      var name := s.credentials[credential];
      var affected := AssignedTo(s.assignments, credential);
      s.(credentials := s.credentials - {credential},
         assignments := Filter(s.assignments, Others(credential)),
         log := s.log + UnassignEvents(affected, |affected|, name) + [CredentialDeleted(Subject(name))])
  }

  function Assign(s: State, device: nat, credential: nat): State {
    var row := Assignment(device, credential);
    if !Live(s, device) || credential !in s.credentials || row in s.assignments then s
    else s.(assignments := s.assignments + [row], log := s.log + [CredentialAssigned(device, Subject(s.credentials[credential]))])
  }

  function Unassign(s: State, device: nat, credential: nat): State {
    var row := Assignment(device, credential);
    if !Live(s, device) || credential !in s.credentials || row !in s.assignments then s
    else s.(assignments := Filter(s.assignments, AllBut(row)),
            log := s.log + [CredentialUnassigned(device, Subject(s.credentials[credential]))])
  }

  function KeyAt(rows: seq<HostKey>, device: nat, keyType: string): Option<nat> {
    FirstIndex(rows, (k: HostKey) => k.device == device && k.keyType == keyType)
  }

  /** `trust`: at most one row for each device and key type. */
  function TrustKey(rows: seq<HostKey>, device: nat, key: PresentedKey): seq<HostKey> {
    match KeyAt(rows, device, key.keyType)
    case Some(i) =>
      if rows[i].keyBase64 == key.keyBase64 then rows
      else rows[i := rows[i].(keyBase64 := key.keyBase64, fingerprint := key.fingerprint)]
    case None => rows + [HostKey(device, key.keyType, key.keyBase64, key.fingerprint)]
  }

  /** `trust_host_key`: only the key that was reviewed, read again from the device. */
  function Trust(s: State, device: nat, presented: Option<PresentedKey>, reviewed: string): State {
    if !Live(s, device) || presented.None? || presented.value.fingerprint != reviewed then s
    else
      var key := presented.value;
      s.(hostKeys := TrustKey(s.hostKeys, device, key),
         log := s.log + [HostKeyTrusted(device, Subject(key.fingerprint), key.keyType)])
  }

  function KeysOf(rows: seq<HostKey>, device: nat): seq<HostKey> {
    Filter(rows, (k: HostKey) => k.device == device)
  }

  function KeysOfOthers(rows: seq<HostKey>, device: nat): seq<HostKey> {
    Filter(rows, (k: HostKey) => k.device != device)
  }

  /** `revoke_host_key`; a removed device can still lose its keys. */
  function Revoke(s: State, device: nat): State {
    if device !in s.devices || KeysOf(s.hostKeys, device) == [] then s
    else s.(hostKeys := KeysOfOthers(s.hostKeys, device), log := s.log + [HostKeyRevoked(device)])
  }

  function Apply(s: State, r: Request): State {
    match r
    case Create(id, name, usable) => Create(s, id, name, usable)
    case Delete(credential) => Delete(s, credential)
    case Assign(device, credential) => Assign(s, device, credential)
    case Unassign(device, credential) => Unassign(s, device, credential)
    case Trust(device, presented, reviewed) => Trust(s, device, presented, reviewed)
    case Revoke(device) => Revoke(s, device)
    case Discover(device) => s.(devices := s.devices[device := false])
    case Remove(device) =>
      if device in s.devices then s.(devices := s.devices[device := true], log := s.log + [DeviceRemoved(device)]) else s
  }

  function Run(requests: seq<Request>): State {
    if requests == [] then EMPTY else Apply(Run(requests[..|requests| - 1]), requests[|requests| - 1])
  }

  // ---------------------------------------------------------------- replaying the log

  /** Who holds which credential, by the name the log uses. */
  type Holdings = multiset<(nat, string)>

  function ReplayHolding(held: Holdings, e: Event): Holdings {
    match e
    case CredentialAssigned(device, subject) => held + multiset{(device, subject)}
    case CredentialUnassigned(device, subject) => held - multiset{(device, subject)}
    case _ => held
  }

  function ReplayHoldings(log: seq<Event>): Holdings {
    if log == [] then multiset{} else ReplayHolding(ReplayHoldings(log[..|log| - 1]), log[|log| - 1])
  }

  type Trusted = map<(nat, string), string>

  function ReplayKey(trusted: Trusted, e: Event): Trusted {
    match e
    case HostKeyTrusted(device, subject, keyType) => trusted[(device, keyType) := subject]
    case HostKeyRevoked(device) => map k | k in trusted && k.0 != device :: trusted[k]
    case _ => trusted
  }

  function ReplayKeys(log: seq<Event>): Trusted {
    if log == [] then map[] else ReplayKey(ReplayKeys(log[..|log| - 1]), log[|log| - 1])
  }

  lemma ReplayOneMore(log: seq<Event>, e: Event)
    ensures ReplayHoldings(log + [e]) == ReplayHolding(ReplayHoldings(log), e)
    ensures ReplayKeys(log + [e]) == ReplayKey(ReplayKeys(log), e)
  {
    assert (log + [e])[..|log|] == log;
  }

  // ---------------------------------------------------------------- what the tables say

  function LabelOf(a: Assignment, credentials: map<nat, string>): (nat, string) {
    (a.device, if a.credential in credentials then Subject(credentials[a.credential]) else "")
  }

  function Held(rows: seq<Assignment>, credentials: map<nat, string>): Holdings {
    if rows == [] then multiset{} else multiset{LabelOf(rows[0], credentials)} + Held(rows[1..], credentials)
  }

  function SlotOf(k: HostKey): (nat, string) {
    (k.device, k.keyType)
  }

  /** The replayed keys are exactly the stored rows. */
  ghost predicate Mirrors(trusted: Trusted, rows: seq<HostKey>) {
    && (forall i :: 0 <= i < |rows| ==> SlotOf(rows[i]) in trusted && trusted[SlotOf(rows[i])] == Subject(rows[i].fingerprint))
    && (forall x :: x in trusted ==> exists i :: 0 <= i < |rows| && SlotOf(rows[i]) == x)
  }

  predicate OneKeyPerType(rows: seq<HostKey>) {
    forall i, j :: 0 <= i < j < |rows| ==> SlotOf(rows[i]) != SlotOf(rows[j])
  }

  predicate NamesUnique(credentials: map<nat, string>) {
    forall a, b :: a in credentials && b in credentials && credentials[a] == credentials[b] ==> a == b
  }

  predicate References(rows: seq<Assignment>, credentials: map<nat, string>) {
    forall i :: 0 <= i < |rows| ==> rows[i].credential in credentials
  }

  /** Fingerprints come from keys; `digest` is the key library's. */
  predicate Printed(rows: seq<HostKey>, digest: (string, string) -> string) {
    forall i :: 0 <= i < |rows| ==> rows[i].fingerprint == digest(rows[i].keyType, rows[i].keyBase64)
  }

  ghost predicate Replays(s: State) {
    ReplayHoldings(s.log) == Held(s.assignments, s.credentials) && Mirrors(ReplayKeys(s.log), s.hostKeys)
  }

  predicate Sound(s: State) {
    NamesUnique(s.credentials) && References(s.assignments, s.credentials) && NoDuplicates(s.assignments) && OneKeyPerType(s.hostKeys)
  }

  /** The presented keys of a run carry the digests of their keys. */
  predicate Genuine(r: Request, digest: (string, string) -> string) {
    r.Trust? && r.presented.Some? ==> r.presented.value.fingerprint == digest(r.presented.value.keyType, r.presented.value.keyBase64)
  }

  // ---------------------------------------------------------------- holdings replay

  lemma {:induction false} HeldConcat(a: seq<Assignment>, b: seq<Assignment>, credentials: map<nat, string>)
    ensures Held(a + b, credentials) == Held(a, credentials) + Held(b, credentials)
  {
    if a == [] {
      assert a + b == b;
    } else {
      assert (a + b)[1..] == a[1..] + b;
      HeldConcat(a[1..], b, credentials);
    }
  }

  /** Rows are held alike by two sets of credentials that agree on the ones they use. */
  lemma {:induction false} HeldAlike(rows: seq<Assignment>, a: map<nat, string>, b: map<nat, string>)
    requires forall i :: 0 <= i < |rows| ==> rows[i].credential in a && rows[i].credential in b && a[rows[i].credential] == b[rows[i].credential]
    ensures Held(rows, a) == Held(rows, b)
  {
    if rows != [] {
      HeldAlike(rows[1..], a, b);
    }
  }

  lemma HeldCons(x: Assignment, rest: seq<Assignment>, credentials: map<nat, string>)
    ensures Held([x] + rest, credentials) == multiset{LabelOf(x, credentials)} + Held(rest, credentials)
  {
    assert ([x] + rest)[1..] == rest;
  }

  /** What is held splits between the rows `p` keeps and those `q` keeps. */
  lemma {:induction false} HeldSplits(rows: seq<Assignment>, p: Assignment -> bool, q: Assignment -> bool, credentials: map<nat, string>)
    requires forall x :: p(x) != q(x)
    ensures Held(rows, credentials) == Held(Filter(rows, p), credentials) + Held(Filter(rows, q), credentials)
  {
    if rows != [] {
      HeldSplits(rows[1..], p, q, credentials);
      var yes, no := Filter(rows[1..], p), Filter(rows[1..], q);
      assert p(rows[0]) != q(rows[0]);
      RegroupBags(multiset{LabelOf(rows[0], credentials)}, Held(yes, credentials), Held(no, credentials));
      if p(rows[0]) {
        assert [] + no == no;
        HeldCons(rows[0], yes, credentials);
      } else {
        assert [] + yes == yes;
        HeldCons(rows[0], no, credentials);
      }
    }
  }

  lemma {:induction false} HeldInsert(x: Assignment, rows: seq<Assignment>, credentials: map<nat, string>)
    ensures Held(Insert(x, rows, DeviceOf), credentials) == multiset{LabelOf(x, credentials)} + Held(rows, credentials)
  {
    if rows == [] || DeviceOf(x) <= DeviceOf(rows[0]) {
      HeldCons(x, rows, credentials);
    } else {
      HeldInsert(x, rows[1..], credentials);
      HeldCons(rows[0], Insert(x, rows[1..], DeviceOf), credentials);
    }
  }

  /** Order does not matter to what is held. */
  lemma {:induction false} HeldSorted(rows: seq<Assignment>, credentials: map<nat, string>)
    ensures Held(SortBy(rows, DeviceOf), credentials) == Held(rows, credentials)
  {
    if rows != [] {
      HeldSorted(rows[1..], credentials);
      HeldInsert(rows[0], SortBy(rows[1..], DeviceOf), credentials);
    }
  }

  lemma HeldOneMore(rows: seq<Assignment>, n: nat, credentials: map<nat, string>)
    requires n < |rows|
    ensures Held(rows[..n + 1], credentials) == Held(rows[..n], credentials) + multiset{LabelOf(rows[n], credentials)}
  {
    OneMore(rows, n);
    HeldConcat(rows[..n], [rows[n]], credentials);
    HeldCons(rows[n], [], credentials);
    assert [rows[n]] + [] == [rows[n]];
  }

  lemma ReplayOneUnassigned(log: seq<Event>, device: nat, subject: string)
    ensures var after := log + [CredentialUnassigned(device, subject)];
      ReplayHoldings(after) == ReplayHoldings(log) - multiset{(device, subject)} && ReplayKeys(after) == ReplayKeys(log)
  {
    ReplayOneMore(log, CredentialUnassigned(device, subject));
  }

  lemma UnassignTakesOff(log: seq<Event>, rows: seq<Assignment>, n: nat, credential: nat, credentials: map<nat, string>)
    requires n < |rows| && credential in credentials && Uses(rows[n], credential)
    ensures var name := credentials[credential];
      var before, after := log + UnassignEvents(rows, n, name), log + UnassignEvents(rows, n + 1, name);
      && ReplayHoldings(after) == ReplayHoldings(before) - multiset{LabelOf(rows[n], credentials)}
      && ReplayKeys(after) == ReplayKeys(before)
  {
    var name, row := credentials[credential], rows[n];
    var before := UnassignEvents(rows, n, name);
    Associative(log, before, [CredentialUnassigned(row.device, Subject(name))]);
    ReplayOneUnassigned(log + before, row.device, Subject(name));
  }

  /** Taking off row after row takes off what the rows hold. */
  lemma {:induction false} TakenOff(held: nat -> Holdings, keys: nat -> Trusted, rows: seq<Assignment>, n: nat, credentials: map<nat, string>)
    requires n <= |rows|
    requires forall k: nat :: k < n ==> held(k + 1) == held(k) - multiset{LabelOf(rows[k], credentials)} && keys(k + 1) == keys(k)
    ensures held(n) == held(0) - Held(rows[..n], credentials) && keys(n) == keys(0)
  {
    if n == 0 {
      assert rows[..0] == [];
    } else {
      TakenOff(held, keys, rows, n - 1, credentials);
      HeldOneMore(rows, n - 1, credentials);
      TakeAwayBoth(held(0), Held(rows[..n - 1], credentials), multiset{LabelOf(rows[n - 1], credentials)});
    }
  }

  /** What the log replays to with the events of the first rows. */
  function HeldAfter(log: seq<Event>, rows: seq<Assignment>, name: string): nat -> Holdings {
    (k: nat) => if k <= |rows| then ReplayHoldings(log + UnassignEvents(rows, k, name)) else multiset{}
  }

  function KeysAfter(log: seq<Event>, rows: seq<Assignment>, name: string): nat -> Trusted {
    (k: nat) => if k <= |rows| then ReplayKeys(log + UnassignEvents(rows, k, name)) else map[]
  }

  lemma OneRowTakesOff(log: seq<Event>, rows: seq<Assignment>, k: nat, credential: nat, credentials: map<nat, string>)
    requires k < |rows| && credential in credentials && Uses(rows[k], credential)
    ensures var held, keys := HeldAfter(log, rows, credentials[credential]), KeysAfter(log, rows, credentials[credential]);
      held(k + 1) == held(k) - multiset{LabelOf(rows[k], credentials)} && keys(k + 1) == keys(k)
  {
    UnassignTakesOff(log, rows, k, credential, credentials);
  }

  lemma NoRowsYet(log: seq<Event>, rows: seq<Assignment>, name: string)
    ensures HeldAfter(log, rows, name)(0) == ReplayHoldings(log) && KeysAfter(log, rows, name)(0) == ReplayKeys(log)
  {
    assert log + UnassignEvents(rows, 0, name) == log;
  }

  /** Replaying one event per row takes off what the rows hold. */
  lemma ReplayUnassigned(log: seq<Event>, rows: seq<Assignment>, n: nat, credential: nat, credentials: map<nat, string>)
    requires n <= |rows| && credential in credentials && forall i :: 0 <= i < |rows| ==> Uses(rows[i], credential)
    ensures var after := log + UnassignEvents(rows, n, credentials[credential]);
      ReplayHoldings(after) == ReplayHoldings(log) - Held(rows[..n], credentials) && ReplayKeys(after) == ReplayKeys(log)
  {
    var held, keys := HeldAfter(log, rows, credentials[credential]), KeysAfter(log, rows, credentials[credential]);
    forall k: nat | k < n ensures held(k + 1) == held(k) - multiset{LabelOf(rows[k], credentials)} && keys(k + 1) == keys(k) {
      OneRowTakesOff(log, rows, k, credential, credentials);
    }
    TakenOff(held, keys, rows, n, credentials);
    NoRowsYet(log, rows, credentials[credential]);
  }

  lemma CreateReplays(s: State, id: nat, name: string, usable: bool)
    requires Sound(s) && Replays(s)
    ensures Sound(Create(s, id, name, usable)) && Replays(Create(s, id, name, usable))
  {
    var t := Create(s, id, name, usable);
    if t != s {
      ReplayOneMore(s.log, CredentialCreated(Subject(Strip(name))));
      HeldAlike(s.assignments, s.credentials, t.credentials);
    }
  }

  lemma DeleteReplays(s: State, credential: nat)
    requires Sound(s) && Replays(s)
    ensures Sound(Delete(s, credential)) && Replays(Delete(s, credential))
  {
    if credential in s.credentials {
      var affected := AssignedTo(s.assignments, credential);
      var events := UnassignEvents(affected, |affected|, s.credentials[credential]);
      DeleteLogs(s, credential);
      DeleteHoldings(s.assignments, s.credentials, credential);
      ReplayOneMore(s.log + events, CredentialDeleted(Subject(s.credentials[credential])));
      FilterKeepsDistinct(s.assignments, Others(credential));
    }
  }

  lemma DeleteLogs(s: State, credential: nat)
    requires credential in s.credentials
    ensures var affected := AssignedTo(s.assignments, credential);
      var after := s.log + UnassignEvents(affected, |affected|, s.credentials[credential]);
      ReplayHoldings(after) == ReplayHoldings(s.log) - Held(affected, s.credentials) && ReplayKeys(after) == ReplayKeys(s.log)
  {
    var affected := AssignedTo(s.assignments, credential);
    SortByArranges(Filter(s.assignments, Users(credential)), DeviceOf);
    assert forall i :: 0 <= i < |affected| ==> affected[i] in affected;
    ReplayUnassigned(s.log, affected, |affected|, credential, s.credentials);
    assert affected[..|affected|] == affected;
  }

  /** What the erased rows held is what the log takes off. */
  lemma DeleteHoldings(rows: seq<Assignment>, credentials: map<nat, string>, credential: nat)
    requires References(rows, credentials)
    ensures var kept := Filter(rows, Others(credential));
      && References(kept, credentials - {credential})
      && Held(kept, credentials - {credential}) == Held(rows, credentials) - Held(AssignedTo(rows, credential), credentials)
  {
    var kept := Filter(rows, Others(credential));
    forall i | 0 <= i < |kept| ensures kept[i].credential in credentials && kept[i].credential != credential {
      assert kept[i] in kept;
    }
    HeldSplits(rows, Users(credential), Others(credential), credentials);
    HeldSorted(Filter(rows, Users(credential)), credentials);
    HeldAlike(kept, credentials, credentials - {credential});
  }

  lemma AssignReplays(s: State, device: nat, credential: nat)
    requires Sound(s) && Replays(s)
    ensures Sound(Assign(s, device, credential)) && Replays(Assign(s, device, credential))
  {
    var t, row := Assign(s, device, credential), Assignment(device, credential);
    if t != s {
      ReplayOneMore(s.log, CredentialAssigned(device, Subject(s.credentials[credential])));
      HeldConcat(s.assignments, [row], s.credentials);
      assert Held([row], s.credentials) == multiset{LabelOf(row, s.credentials)};
      AppendKeepsDistinct(s.assignments, row);
    }
  }

  lemma {:induction false} FilterNone<T(!new)>(s: seq<T>, p: T -> bool)
    requires forall x :: x in s ==> !p(x)
    ensures Filter(s, p) == []
  {
    if s != [] {
      FilterNone(s[1..], p);
    }
  }

  lemma {:induction false} FilterOne<T(!new)>(s: seq<T>, x: T, p: T -> bool)
    requires NoDuplicates(s) && x in s && forall y :: p(y) <==> y == x
    ensures Filter(s, p) == [x]
  {
    var rest := s[1..];
    assert forall i :: 0 <= i < |rest| ==> rest[i] == s[i + 1];
    if s[0] == x {
      FilterNone(rest, p);
    } else {
      FilterOne(rest, x, p);
      assert [] + [x] == [x];
    }
  }

  lemma UnassignReplays(s: State, device: nat, credential: nat)
    requires Sound(s) && Replays(s)
    ensures Sound(Unassign(s, device, credential)) && Replays(Unassign(s, device, credential))
  {
    var row := Assignment(device, credential);
    if Unassign(s, device, credential) != s {
      ReplayOneMore(s.log, CredentialUnassigned(device, Subject(s.credentials[credential])));
      UnassignHoldings(s.assignments, s.credentials, row);
      FilterKeepsDistinct(s.assignments, AllBut(row));
    }
  }

  lemma UnassignHoldings(rows: seq<Assignment>, credentials: map<nat, string>, row: Assignment)
    requires References(rows, credentials) && NoDuplicates(rows) && row in rows
    ensures var kept := Filter(rows, AllBut(row));
      References(kept, credentials) && Held(kept, credentials) == Held(rows, credentials) - multiset{LabelOf(row, credentials)}
  {
    var kept, only := Filter(rows, AllBut(row)), (a: Assignment) => a == row;
    forall i | 0 <= i < |kept| ensures kept[i].credential in credentials {
      assert kept[i] in kept;
    }
    HeldSplits(rows, only, AllBut(row), credentials);
    FilterOne(rows, row, only);
    assert [row][1..] == [];
    assert Held([row], credentials) == multiset{LabelOf(row, credentials)};
  }

  // ---------------------------------------------------------------- host keys replay

  /** Trusting a key replaces the row in its slot, or adds one. */
  lemma TrustFillsSlot(rows: seq<HostKey>, device: nat, key: PresentedKey, digest: (string, string) -> string)
    requires Printed(rows, digest) && key.fingerprint == digest(key.keyType, key.keyBase64)
    ensures var row, at := HostKey(device, key.keyType, key.keyBase64, key.fingerprint), KeyAt(rows, device, key.keyType);
      match at {
        case Some(i) => SlotOf(rows[i]) == SlotOf(row) && TrustKey(rows, device, key) == rows[i := row]
        case None => TrustKey(rows, device, key) == rows + [row] && forall j :: 0 <= j < |rows| ==> SlotOf(rows[j]) != SlotOf(row)
      }
  {
  }

  /**
   * Trusting leaves the key in its slot, alone there, and every other slot as it was; with genuine
   * fingerprints or not.
   */
  lemma TrustKeepsSlots(rows: seq<HostKey>, device: nat, key: PresentedKey)
    requires OneKeyPerType(rows)
    ensures var after := TrustKey(rows, device, key);
      && OneKeyPerType(after)
      && (exists k :: k in after && SlotOf(k) == (device, key.keyType) && k.keyBase64 == key.keyBase64)
      && forall k :: SlotOf(k) != (device, key.keyType) ==> (k in after <==> k in rows)
  {
    var after, at := TrustKey(rows, device, key), KeyAt(rows, device, key.keyType);
    var i := if at.Some? then at.value else |rows|;
    assert SlotOf(after[i]) == (device, key.keyType) && after[i].keyBase64 == key.keyBase64;
    assert forall j :: 0 <= j < |rows| && j != i ==> after[j] == rows[j];
    forall k | SlotOf(k) != (device, key.keyType) && k in rows ensures k in after {
      var j :| 0 <= j < |rows| && rows[j] == k;
      assert after[j] == k;
    }
  }

  lemma ReplacedKeepsSlots(rows: seq<HostKey>, i: nat, row: HostKey)
    requires i < |rows| && SlotOf(rows[i]) == SlotOf(row)
    ensures forall j :: 0 <= j < |rows| ==> SlotOf(rows[i := row][j]) == SlotOf(rows[j])
    ensures OneKeyPerType(rows) ==> OneKeyPerType(rows[i := row])
  {
  }

  lemma MirrorsReplaced(trusted: Trusted, rows: seq<HostKey>, i: nat, row: HostKey)
    requires Mirrors(trusted, rows) && OneKeyPerType(rows) && i < |rows| && SlotOf(rows[i]) == SlotOf(row)
    ensures Mirrors(trusted[SlotOf(row) := Subject(row.fingerprint)], rows[i := row])
  {
    var after, next := rows[i := row], trusted[SlotOf(row) := Subject(row.fingerprint)];
    ReplacedKeepsSlots(rows, i, row);
    forall j | 0 <= j < |after| ensures SlotOf(after[j]) in next && next[SlotOf(after[j])] == Subject(after[j].fingerprint) {
      if j != i {
        assert SlotOf(rows[j]) != SlotOf(rows[i]);
      }
    }
    forall x | x in next ensures exists j :: 0 <= j < |after| && SlotOf(after[j]) == x {
      if x != SlotOf(row) {
        var j :| 0 <= j < |rows| && SlotOf(rows[j]) == x;
        assert SlotOf(after[j]) == x;
      } else {
        assert SlotOf(after[i]) == x;
      }
    }
  }

  lemma MirrorsAdded(trusted: Trusted, rows: seq<HostKey>, row: HostKey)
    requires Mirrors(trusted, rows) && OneKeyPerType(rows) && forall j :: 0 <= j < |rows| ==> SlotOf(rows[j]) != SlotOf(row)
    ensures Mirrors(trusted[SlotOf(row) := Subject(row.fingerprint)], rows + [row]) && OneKeyPerType(rows + [row])
  {
    var after := rows + [row];
    assert after[|rows|] == row && forall j :: 0 <= j < |rows| ==> after[j] == rows[j];
    forall x | x in trusted ensures exists j :: 0 <= j < |after| && SlotOf(after[j]) == x {
      var j :| 0 <= j < |rows| && SlotOf(rows[j]) == x;
      assert SlotOf(after[j]) == x;
    }
  }

  /** A trusted genuine key keeps the rows unique and printed, and in step with the replayed keys. */
  lemma TrustMirrors(trusted: Trusted, rows: seq<HostKey>, device: nat, key: PresentedKey, digest: (string, string) -> string)
    requires Mirrors(trusted, rows) && OneKeyPerType(rows) && Printed(rows, digest)
    requires key.fingerprint == digest(key.keyType, key.keyBase64)
    ensures var after := TrustKey(rows, device, key);
      && Mirrors(trusted[(device, key.keyType) := Subject(key.fingerprint)], after)
      && OneKeyPerType(after) && Printed(after, digest)
  {
    var row := HostKey(device, key.keyType, key.keyBase64, key.fingerprint);
    TrustFillsSlot(rows, device, key, digest);
    match KeyAt(rows, device, key.keyType) {
      case Some(i) =>
        ReplacedKeepsSlots(rows, i, row);
        MirrorsReplaced(trusted, rows, i, row);
      case None => MirrorsAdded(trusted, rows, row);
    }
  }

  lemma TrustReplays(s: State, device: nat, presented: Option<PresentedKey>, reviewed: string, digest: (string, string) -> string)
    requires Sound(s) && Replays(s) && Printed(s.hostKeys, digest) && Genuine(Request.Trust(device, presented, reviewed), digest)
    ensures var t := Trust(s, device, presented, reviewed); Sound(t) && Replays(t) && Printed(t.hostKeys, digest)
  {
    if Trust(s, device, presented, reviewed) != s {
      var key := presented.value;
      ReplayOneMore(s.log, HostKeyTrusted(device, Subject(key.fingerprint), key.keyType));
      TrustMirrors(ReplayKeys(s.log), s.hostKeys, device, key, digest);
    }
  }

  /** Rows of the others, in the order they had. */
  lemma PrependKey(k: HostKey, rows: seq<HostKey>)
    requires OneKeyPerType(rows) && forall j :: 0 <= j < |rows| ==> SlotOf(rows[j]) != SlotOf(k)
    ensures OneKeyPerType([k] + rows)
  {
  }

  lemma {:induction false} OthersStay(rows: seq<HostKey>, device: nat)
    requires OneKeyPerType(rows)
    ensures OneKeyPerType(KeysOfOthers(rows, device))
  {
    if rows != [] {
      var first, rest := rows[0], rows[1..];
      assert forall i :: 0 <= i < |rest| ==> rest[i] == rows[i + 1];
      OthersStay(rest, device);
      var kept := KeysOfOthers(rest, device);
      forall j | 0 <= j < |kept| ensures SlotOf(kept[j]) != SlotOf(first) {
        assert kept[j] in kept;
        var i :| 0 <= i < |rest| && rest[i] == kept[j];
        assert SlotOf(rows[0]) != SlotOf(rows[i + 1]);
      }
      if first.device != device {
        PrependKey(first, kept);
      } else {
        assert [] + kept == kept;
      }
    }
  }

  lemma MirrorsRevoked(trusted: Trusted, rows: seq<HostKey>, device: nat)
    requires Mirrors(trusted, rows)
    ensures Mirrors(map k | k in trusted && k.0 != device :: trusted[k], KeysOfOthers(rows, device))
  {
    var kept := KeysOfOthers(rows, device);
    forall i | 0 <= i < |kept| ensures kept[i] in rows && kept[i].device != device {
      assert kept[i] in kept;
    }
    forall x | x in trusted && x.0 != device ensures exists i :: 0 <= i < |kept| && SlotOf(kept[i]) == x {
      var j :| 0 <= j < |rows| && SlotOf(rows[j]) == x;
      assert rows[j] in rows;
      assert rows[j] in kept;
    }
  }

  lemma RevokeReplays(s: State, device: nat, digest: (string, string) -> string)
    requires Sound(s) && Replays(s) && Printed(s.hostKeys, digest)
    ensures var t := Revoke(s, device); Sound(t) && Replays(t) && Printed(t.hostKeys, digest)
  {
    var t := Revoke(s, device);
    if t != s {
      ReplayOneMore(s.log, HostKeyRevoked(device));
      OthersStay(s.hostKeys, device);
      MirrorsRevoked(ReplayKeys(s.log), s.hostKeys, device);
      forall i | 0 <= i < |t.hostKeys| ensures t.hostKeys[i] in s.hostKeys {
        assert t.hostKeys[i] in t.hostKeys;
      }
    }
  }

  // ---------------------------------------------------------------- every run

  /** What every request keeps. */
  ghost predicate Invariant(s: State, digest: (string, string) -> string) {
    Sound(s) && Replays(s) && Printed(s.hostKeys, digest)
  }

  lemma SameTablesReplay(s: State, t: State)
    requires Sound(s) && Replays(s)
    requires t.credentials == s.credentials && t.assignments == s.assignments && t.hostKeys == s.hostKeys
    requires ReplayHoldings(t.log) == ReplayHoldings(s.log) && ReplayKeys(t.log) == ReplayKeys(s.log)
    ensures Sound(t) && Replays(t)
  {
  }

  lemma RemoveReplays(s: State, device: nat)
    requires Sound(s) && Replays(s)
    ensures var t := Apply(s, Request.Remove(device)); Sound(t) && Replays(t) && t.hostKeys == s.hostKeys
  {
    ReplayOneMore(s.log, DeviceRemoved(device));
    SameTablesReplay(s, Apply(s, Request.Remove(device)));
  }

  lemma ApplyKeepsCredentials(s: State, r: Request, digest: (string, string) -> string)
    requires Invariant(s, digest) && (r.Create? || r.Delete? || r.Assign? || r.Unassign?)
    ensures Invariant(Apply(s, r), digest)
  {
    match r {
      case Create(id, name, usable) => CreateReplays(s, id, name, usable);
      case Delete(credential) => DeleteReplays(s, credential);
      case Assign(device, credential) => AssignReplays(s, device, credential);
      case Unassign(device, credential) => UnassignReplays(s, device, credential);
    }
  }

  lemma ApplyKeepsTrust(s: State, r: Request, digest: (string, string) -> string)
    requires Invariant(s, digest) && Genuine(r, digest) && r.Trust?
    ensures Invariant(Apply(s, r), digest)
  {
    TrustReplays(s, r.device, r.presented, r.reviewed, digest);
    assert Apply(s, r) == Trust(s, r.device, r.presented, r.reviewed);
  }

  lemma ApplyKeepsRevoke(s: State, r: Request, digest: (string, string) -> string)
    requires Invariant(s, digest) && r.Revoke?
    ensures Invariant(Apply(s, r), digest)
  {
    RevokeReplays(s, r.device, digest);
    assert Apply(s, r) == Revoke(s, r.device);
  }

  lemma ApplyKeepsDevices(s: State, r: Request, digest: (string, string) -> string)
    requires Invariant(s, digest) && (r.Discover? || r.Remove?)
    ensures Invariant(Apply(s, r), digest)
  {
    if r.Remove? {
      RemoveReplays(s, r.device);
    }
  }

  /**
   * After every run of requests, replaying the change log rebuilds who holds which credential and
   * which host keys are trusted.
   */
  lemma {:induction false} LogRebuildsTables(requests: seq<Request>, digest: (string, string) -> string)
    requires forall i :: 0 <= i < |requests| ==> Genuine(requests[i], digest)
    ensures Invariant(Run(requests), digest)
  {
    if requests != [] {
      var s, r := Run(requests[..|requests| - 1]), requests[|requests| - 1];
      LogRebuildsTables(requests[..|requests| - 1], digest);
      if r.Create? || r.Delete? || r.Assign? || r.Unassign? {
        ApplyKeepsCredentials(s, r, digest);
      } else if r.Trust? {
        ApplyKeepsTrust(s, r, digest);
      } else if r.Revoke? {
        ApplyKeepsRevoke(s, r, digest);
      } else {
        ApplyKeepsDevices(s, r, digest);
      }
    }
  }

  // ---------------------------------------------------------------- what a replay means

  /** The last word on a device's key type: trusted, and neither replaced nor forgotten since. */
  predicate LastTrust(log: seq<Event>, i: nat, device: nat, keyType: string, subject: string) {
    && i < |log| && log[i] == HostKeyTrusted(device, subject, keyType)
    && forall j :: i < j < |log| ==>
         log[j] != HostKeyRevoked(device) && !(log[j].HostKeyTrusted? && log[j].device == device && log[j].keyType == keyType)
  }

  lemma {:induction false} ReplayedKeyIsLastTrust(log: seq<Event>, device: nat, keyType: string, subject: string)
    ensures (device, keyType) in ReplayKeys(log) && ReplayKeys(log)[(device, keyType)] == subject
      <==> exists i: nat :: LastTrust(log, i, device, keyType, subject)
  {
    if log != [] {
      var n := |log| - 1;
      var before, e := log[..n], log[n];
      ReplayedKeyIsLastTrust(before, device, keyType, subject);
      if i: nat :| LastTrust(log, i, device, keyType, subject) && i < n {
        assert LastTrust(before, i, device, keyType, subject);
      }
      if e != HostKeyRevoked(device) && !(e.HostKeyTrusted? && e.device == device && e.keyType == keyType) {
        if i: nat :| LastTrust(before, i, device, keyType, subject) {
          assert LastTrust(log, i, device, keyType, subject);
        }
      }
      if e == HostKeyTrusted(device, subject, keyType) {
        assert LastTrust(log, n, device, keyType, subject);
      }
    }
  }

  /** An SSH action reaches a device with a credential when the device presents a key on record. */
  ghost predicate Connects(s: State, device: nat, credential: nat, keyType: string, keyBase64: string) {
    && Assignment(device, credential) in s.assignments
    && exists k :: k in s.hostKeys && k.device == device && k.keyType == keyType && k.keyBase64 == keyBase64
  }

  /**
   * An SSH action runs only under a key whose trust is on record, with no later revocation for
   * the device and no later key of that type, and with a credential the log says it holds.
   */
  lemma ConnectsOnlyUnderTrust(requests: seq<Request>, digest: (string, string) -> string, device: nat, credential: nat, keyType: string, keyBase64: string)
    requires forall i :: 0 <= i < |requests| ==> Genuine(requests[i], digest)
    requires Connects(Run(requests), device, credential, keyType, keyBase64)
    ensures exists i: nat :: LastTrust(Run(requests).log, i, device, keyType, Subject(digest(keyType, keyBase64)))
    ensures credential in Run(requests).credentials
      && (device, Subject(Run(requests).credentials[credential])) in ReplayHoldings(Run(requests).log)
  {
    var s := Run(requests);
    LogRebuildsTables(requests, digest);
    KeyIsOnRecord(s, device, keyType, keyBase64, digest);
    HeldWhenAssigned(s.assignments, s.credentials, Assignment(device, credential));
  }

  lemma KeyIsOnRecord(s: State, device: nat, keyType: string, keyBase64: string, digest: (string, string) -> string)
    requires Mirrors(ReplayKeys(s.log), s.hostKeys) && Printed(s.hostKeys, digest)
    requires exists k :: k in s.hostKeys && k.device == device && k.keyType == keyType && k.keyBase64 == keyBase64
    ensures exists i: nat :: LastTrust(s.log, i, device, keyType, Subject(digest(keyType, keyBase64)))
  {
    var k :| k in s.hostKeys && k.device == device && k.keyType == keyType && k.keyBase64 == keyBase64;
    var j :| 0 <= j < |s.hostKeys| && s.hostKeys[j] == k;
    assert SlotOf(s.hostKeys[j]) == (device, keyType);
    ReplayedKeyIsLastTrust(s.log, device, keyType, Subject(digest(keyType, keyBase64)));
  }

  lemma {:induction false} HeldWhenAssigned(rows: seq<Assignment>, credentials: map<nat, string>, row: Assignment)
    requires row in rows
    ensures LabelOf(row, credentials) in Held(rows, credentials)
  {
    if row != rows[0] {
      assert row in rows[1..];
      HeldWhenAssigned(rows[1..], credentials, row);
    }
  }

  lemma {:induction false} AssignedWhenHeld(rows: seq<Assignment>, credentials: map<nat, string>, x: (nat, string))
    requires x in Held(rows, credentials)
    ensures exists row :: row in rows && LabelOf(row, credentials) == x
  {
    if LabelOf(rows[0], credentials) == x {
      assert rows[0] in rows;
    } else {
      AssignedWhenHeld(rows[1..], credentials, x);
      var row :| row in rows[1..] && LabelOf(row, credentials) == x;
      assert row in rows;
    }
  }

  /** While the log can tell the credentials apart, it names exactly the assignments there are. */
  lemma LogNamesAssignments(requests: seq<Request>, digest: (string, string) -> string, device: nat, credential: nat)
    requires forall i :: 0 <= i < |requests| ==> Genuine(requests[i], digest)
    requires credential in Run(requests).credentials && ToldApart(Run(requests).credentials, credential)
    ensures var s := Run(requests);
      Assignment(device, credential) in s.assignments <==> (device, Subject(s.credentials[credential])) in ReplayHoldings(s.log)
  {
    var s := Run(requests);
    LogRebuildsTables(requests, digest);
    var x := (device, Subject(s.credentials[credential]));
    if Assignment(device, credential) in s.assignments {
      HeldWhenAssigned(s.assignments, s.credentials, Assignment(device, credential));
    }
    if x in Held(s.assignments, s.credentials) {
      AssignedWhenHeld(s.assignments, s.credentials, x);
      var row :| row in s.assignments && LabelOf(row, s.credentials) == x;
      assert row.credential in s.credentials;
      assert row == Assignment(device, credential);
    }
  }

  /** No other credential has the same first characters in the log. */
  predicate ToldApart(credentials: map<nat, string>, credential: nat)
    requires credential in credentials
  {
    forall id :: id in credentials && Subject(credentials[id]) == Subject(credentials[credential]) ==> id == credential
  }

  // ---------------------------------------------------------------- only reviewed keys

  /** Request `i` trusted, after review, the key that the live device then presented. */
  ghost predicate Reviewed(requests: seq<Request>, i: nat, device: nat, key: PresentedKey) {
    && i < |requests| && requests[i].Trust? && requests[i].device == device
    && requests[i].presented == Some(key) && requests[i].reviewed == key.fingerprint
    && device in Run(requests[..i]).devices && !Run(requests[..i]).devices[device]
  }

  ghost predicate WasReviewed(requests: seq<Request>, device: nat, key: PresentedKey) {
    exists i: nat :: Reviewed(requests, i, device, key)
  }

  lemma ReviewedStays(requests: seq<Request>, device: nat, key: PresentedKey)
    requires requests != [] && WasReviewed(requests[..|requests| - 1], device, key)
    ensures WasReviewed(requests, device, key)
  {
    var i: nat :| Reviewed(requests[..|requests| - 1], i, device, key);
    assert requests[..|requests| - 1][..i] == requests[..i];
    assert Reviewed(requests, i, device, key);
  }

  lemma LastStored(before: State, r: Request, k: HostKey)
    requires k in Apply(before, r).hostKeys && k !in before.hostKeys
    ensures r.Trust? && r.device == k.device && Live(before, r.device)
    ensures r.presented == Some(PresentedKey(k.keyType, k.keyBase64, k.fingerprint)) && r.reviewed == k.fingerprint
  {
  }

  /** In every run, each stored host key is one that a request trusted after review. */
  lemma {:induction false} OnlyReviewedKeysAreStored(requests: seq<Request>, k: HostKey)
    requires k in Run(requests).hostKeys
    ensures WasReviewed(requests, k.device, PresentedKey(k.keyType, k.keyBase64, k.fingerprint))
  {
    var key := PresentedKey(k.keyType, k.keyBase64, k.fingerprint);
    if k in Run(requests[..|requests| - 1]).hostKeys {
      OnlyReviewedKeysAreStored(requests[..|requests| - 1], k);
      ReviewedStays(requests, k.device, key);
    } else {
      var n := |requests| - 1;
      LastStored(Run(requests[..n]), requests[n], k);
      assert Reviewed(requests, n, k.device, key);
    }
  }

  lemma LastLogged(before: State, r: Request, e: Event)
    requires e.HostKeyTrusted? && e in Apply(before, r).log && e !in before.log
    ensures r.Trust? && r.device == e.device && Live(before, r.device) && r.presented.Some?
    ensures r.presented.value.fingerprint == r.reviewed
    ensures e.subject == Subject(r.presented.value.fingerprint) && e.keyType == r.presented.value.keyType
  {
    if r.Delete? && r.credential in before.credentials {
      var affected := AssignedTo(before.assignments, r.credential);
      UnassignEventsAt(affected, |affected|, before.credentials[r.credential]);
    }
  }

  /** And each logged trust is of one such key. */
  lemma {:induction false} OnlyReviewedKeysAreLogged(requests: seq<Request>, e: Event)
    requires e.HostKeyTrusted? && e in Run(requests).log
    ensures exists key :: WasReviewed(requests, e.device, key) && e.subject == Subject(key.fingerprint) && e.keyType == key.keyType
  {
    var n := |requests| - 1;
    var before := Run(requests[..n]);
    if e in before.log {
      OnlyReviewedKeysAreLogged(requests[..n], e);
      var key :| WasReviewed(requests[..n], e.device, key) && e.subject == Subject(key.fingerprint) && e.keyType == key.keyType;
      ReviewedStays(requests, e.device, key);
    } else {
      LastLogged(before, requests[n], e);
      assert Reviewed(requests, n, e.device, requests[n].presented.value);
    }
  }
}
