/** The credential, assignment and host-key tables with their change log (app/modules/credentials). */
module TrustStore {
  import opened Wrappers
  import opened Sequences
  import opened Texts
  import opened TrustLog

  datatype Response = NotFound | Redirect | BadRequest | ProbeFailed | Conflict

  class Store {
    var devices: map<nat, bool>
    var credentials: map<nat, string>
    var assignments: seq<Assignment>
    var hostKeys: seq<HostKey>
    var log: seq<Event>

    constructor ()
      ensures Stored() == EMPTY
    {
      devices, credentials, assignments, hostKeys, log := map[], map[], [], [], [];
    }

    function Stored(): State
      reads this
    {
      State(devices, credentials, assignments, hostKeys, log)
    }

    predicate IsLive(device: nat)
      reads this
    {
      device in devices && !devices[device]
    }

    // -------------------------------------------------------------- app/modules/credentials/service.py

    /** `assign`. */
    method AddAssignment(device: nat, credential: nat) returns (changed: bool)
      modifies this`assignments
      ensures changed == (Assignment(device, credential) !in old(assignments))
      ensures assignments == old(assignments) + if changed then [Assignment(device, credential)] else []
    {
      var row := Assignment(device, credential);
      if row in assignments {
        assert assignments + [] == assignments;
        return false;
      }
      assignments := assignments + [row];
      return true;
    }

    /** `unassign`. */
    method DropAssignment(device: nat, credential: nat) returns (changed: bool)
      modifies this`assignments
      ensures changed == (Assignment(device, credential) in old(assignments))
      ensures assignments == if changed then Filter(old(assignments), AllBut(Assignment(device, credential))) else old(assignments)
    {
      var row := Assignment(device, credential);
      if row !in assignments {
        return false;
      }
      assignments := Filter(assignments, AllBut(row));
      return true;
    }

    /** `trust`. */
    method KeepKey(device: nat, key: PresentedKey)
      modifies this`hostKeys
      ensures hostKeys == TrustKey(old(hostKeys), device, key)
      ensures OneKeyPerType(old(hostKeys)) ==> OneKeyPerType(hostKeys)
      ensures OneKeyPerType(old(hostKeys)) ==> exists k :: k in hostKeys && SlotOf(k) == (device, key.keyType) && k.keyBase64 == key.keyBase64
    {
      if OneKeyPerType(hostKeys) {
        TrustKeepsSlots(hostKeys, device, key);
      }
      var existing := KeyAt(hostKeys, device, key.keyType);
      if existing.Some? {
        var row := hostKeys[existing.value];
        if row.keyBase64 == key.keyBase64 {
          return;
        }
        hostKeys := hostKeys[existing.value := row.(keyBase64 := key.keyBase64, fingerprint := key.fingerprint)];
        return;
      }
      hostKeys := hostKeys + [HostKey(device, key.keyType, key.keyBase64, key.fingerprint)];
    }

    /** `revoke_host_key`: the number of rows removed. */
    method ForgetKeys(device: nat) returns (removed: nat)
      modifies this`hostKeys
      ensures removed == |KeysOf(old(hostKeys), device)|
      ensures hostKeys == KeysOfOthers(old(hostKeys), device)
    {
      var records := KeysOf(hostKeys, device);
      FilterAll(hostKeys, Surviving(records, 0));
      for i := 0 to |records|
        invariant hostKeys == Filter(old(hostKeys), Surviving(records, i))
      {
        SurvivingOneMore(records, i);
        FilterAgain(old(hostKeys), Surviving(records, i), NotRow(records[i]), Surviving(records, i + 1));
        hostKeys := Filter(hostKeys, NotRow(records[i]));
      }
      FilterAlikeWithin(old(hostKeys), Surviving(records, |records|), (k: HostKey) => k.device != device);
      return |records|;
    }

    /** `trusted_key_for`: some row of the device. */
    method TrustedKeyFor(device: nat) returns (r: Option<HostKey>)
      ensures r.Some? ==> r.value in hostKeys && r.value.device == device
      ensures r.None? ==> KeysOf(hostKeys, device) == []
    {
      var rows := KeysOf(hostKeys, device);
      r := if rows == [] then None else Some(rows[0]);
    }

    // -------------------------------------------------------------- app/modules/credentials/routes.py

    method RecordChange(e: Event)
      modifies this`log
      ensures log == old(log) + [e]
    {
      log := log + [e];
    }

    /** `create_credential`; `usable` says that the other fields passed their checks. */
    method CreateCredential(id: nat, name: string, usable: bool) returns (r: Response)
      requires id !in credentials
      modifies this
      ensures Stored() == Apply(old(Stored()), Request.Create(id, name, usable))
      ensures r == Redirect <==>
        && Strip(name) != "" && usable
        && forall c :: c in old(credentials) ==> old(credentials)[c] != Strip(name)
      ensures r == Redirect ==>
        && credentials == old(credentials)[id := Strip(name)] && log == old(log) + [CredentialCreated(Subject(Strip(name)))]
        && devices == old(devices) && assignments == old(assignments) && hostKeys == old(hostKeys)
      ensures r != Redirect ==> r == BadRequest && Stored() == old(Stored())
    {
      var stripped := Strip(name);
      if stripped == "" || !usable || exists c :: c in credentials && credentials[c] == stripped {
        return BadRequest;
      }
      credentials := credentials[id := stripped];
      RecordChange(CredentialCreated(Subject(stripped)));
      return Redirect;
    }

    /** `delete_credential`. */
    method DeleteCredential(credential: nat) returns (r: Response)
      modifies this
      ensures Stored() == Apply(old(Stored()), Request.Delete(credential))
      ensures r == if credential in old(credentials) then Redirect else NotFound
      ensures r == NotFound ==> Stored() == old(Stored())
      ensures r == Redirect ==>
        && credentials == old(credentials) - {credential} && devices == old(devices) && hostKeys == old(hostKeys)
        && forall a :: a in assignments <==> a in old(assignments) && a.credential != credential
      ensures r == Redirect ==> DeletionLogged(old(log), log, old(assignments), credential, old(credentials)[credential])
    {
      if credential !in credentials {
        return NotFound;
      }
      var name, affected := credentials[credential], AssignedTo(assignments, credential);
      for i := 0 to |affected|
        invariant log == old(log) + UnassignEvents(affected, i, name)
        invariant Stored() == old(Stored()).(log := log)
      {
        Associative(old(log), UnassignEvents(affected, i, name), [CredentialUnassigned(affected[i].device, Subject(name))]);
        RecordChange(CredentialUnassigned(affected[i].device, Subject(name)));
      }
      credentials := credentials - {credential};
      assignments := Filter(assignments, Others(credential));
      RecordChange(CredentialDeleted(Subject(name)));
      DeletionIsLogged(old(log), old(assignments), credential, name);
      return Redirect;
    }

    /** `assign_credential`, which also unassigns. */
    method AssignCredential(device: nat, credential: nat, unassign: bool) returns (r: Response)
      modifies this
      ensures Stored() == Apply(old(Stored()), if unassign then Request.Unassign(device, credential) else Request.Assign(device, credential))
      ensures r == (if device in old(devices) && !old(devices)[device] && credential in old(credentials) then Redirect else NotFound)
      ensures r == NotFound ==> Stored() == old(Stored())
      ensures devices == old(devices) && credentials == old(credentials) && hostKeys == old(hostKeys)
      ensures r == Redirect ==> (Assignment(device, credential) in assignments <==> !unassign)
      ensures forall a :: a != Assignment(device, credential) ==> (a in assignments <==> a in old(assignments))
      ensures (Assignment(device, credential) in assignments <==> Assignment(device, credential) in old(assignments)) ==> log == old(log)
      ensures Assignment(device, credential) in assignments && Assignment(device, credential) !in old(assignments) ==>
        log == old(log) + [CredentialAssigned(device, Subject(old(credentials)[credential]))]
      ensures Assignment(device, credential) !in assignments && Assignment(device, credential) in old(assignments) ==>
        log == old(log) + [CredentialUnassigned(device, Subject(old(credentials)[credential]))]
    {
      if !IsLive(device) || credential !in credentials {
        return NotFound;
      }
      var subject := Subject(credentials[credential]);
      if unassign {
        var changed := DropAssignment(device, credential);
        if changed {
          RecordChange(CredentialUnassigned(device, subject));
        }
      } else {
        var changed := AddAssignment(device, credential);
        if changed {
          RecordChange(CredentialAssigned(device, subject));
        }
      }
      return Redirect;
    }

    /** `trust_host_key`; `presented` is what probing the device in scope gave. */
    method TrustHostKey(device: nat, presented: Option<PresentedKey>, reviewed: string) returns (r: Response)
      modifies this
      ensures Stored() == Apply(old(Stored()), Request.Trust(device, presented, reviewed))
      ensures r == if !(device in old(devices) && !old(devices)[device]) then NotFound
                   else if presented.None? then ProbeFailed
                   else if presented.value.fingerprint != reviewed then Conflict
                   else Redirect
      ensures r != Redirect ==> Stored() == old(Stored())
      ensures devices == old(devices) && credentials == old(credentials) && assignments == old(assignments)
      ensures r == Redirect ==>
        log == old(log) + [HostKeyTrusted(device, Subject(presented.value.fingerprint), presented.value.keyType)]
      ensures r == Redirect && OneKeyPerType(old(hostKeys)) ==> OneKeyPerType(hostKeys)
      ensures r == Redirect && OneKeyPerType(old(hostKeys)) ==> exists k ::
        k in hostKeys && k.device == device && k.keyType == presented.value.keyType && k.keyBase64 == presented.value.keyBase64
      ensures r == Redirect && OneKeyPerType(old(hostKeys)) ==>
        forall k: HostKey :: !(k.device == device && k.keyType == presented.value.keyType) ==> (k in hostKeys <==> k in old(hostKeys))
    {
      if !IsLive(device) {
        return NotFound;
      }
      if presented.None? {
        return ProbeFailed;
      }
      if presented.value.fingerprint != reviewed {
        return Conflict;
      }
      if OneKeyPerType(hostKeys) {
        TrustKeepsSlots(hostKeys, device, presented.value);
      }
      KeepKey(device, presented.value);
      RecordChange(HostKeyTrusted(device, Subject(presented.value.fingerprint), presented.value.keyType));
      return Redirect;
    }

    /** `revoke_host_key`. */
    method RevokeHostKey(device: nat) returns (r: Response)
      modifies this
      ensures Stored() == Apply(old(Stored()), Request.Revoke(device))
      ensures r == if device in old(devices) then Redirect else NotFound
      ensures r == NotFound ==> Stored() == old(Stored())
      ensures devices == old(devices) && credentials == old(credentials) && assignments == old(assignments)
      ensures r == Redirect ==> forall k :: k in hostKeys <==> k in old(hostKeys) && k.device != device
      ensures log == old(log) + if hostKeys != old(hostKeys) then [HostKeyRevoked(device)] else []
    {
      if device !in devices {
        return NotFound;
      }
      var removed := ForgetKeys(device);
      if removed > 0 {
        assert KeysOf(old(hostKeys), device)[0] in KeysOf(old(hostKeys), device);
        RecordChange(HostKeyRevoked(device));
      } else {
        KeepsAll(old(hostKeys), device);
      }
      return Redirect;
    }
  }

  // ---------------------------------------------------------------- removing rows one by one

  type KeyFilter = HostKey -> bool

  function NotRow(k: HostKey): KeyFilter {
    (x: HostKey) => x != k
  }

  function Surviving(records: seq<HostKey>, n: nat): KeyFilter
    requires n <= |records|
  {
    (x: HostKey) => x !in records[..n]
  }

  lemma SurvivingOneMore(records: seq<HostKey>, n: nat)
    requires n < |records|
    ensures forall x :: Surviving(records, n + 1)(x) <==> Surviving(records, n)(x) && NotRow(records[n])(x)
  {
    OneMore(records, n);
  }

  lemma {:induction false} FilterAgain<T(!new)>(s: seq<T>, p: T -> bool, q: T -> bool, both: T -> bool)
    requires forall x :: both(x) <==> p(x) && q(x)
    ensures Filter(Filter(s, p), q) == Filter(s, both)
  {
    if s != [] {
      FilterAgain(s[1..], p, q, both);
      var rest := Filter(s[1..], p);
      if p(s[0]) {
        assert ([s[0]] + rest)[1..] == rest;
      } else {
        assert [] + rest == rest;
      }
    }
  }

  lemma KeepsAll(rows: seq<HostKey>, device: nat)
    requires KeysOf(rows, device) == []
    ensures KeysOfOthers(rows, device) == rows
  {
    forall k | k in rows ensures k.device != device {
      assert k.device == device ==> k in KeysOf(rows, device);
    }
    FilterAll(rows, (k: HostKey) => k.device != device);
  }
}
