# NetOps Console: a verified model of its stateful cores

NetOps Console keeps a device inventory built from repeated network scans, with a per-scan
observation history, an audit timeline, an SSH trust store, action templates and in-process
limiters around it. This project models those cores in Dafny and proves what they promise over
whole runs.

- **Inventory.** `Records`, `Inventory` (reconciliation on values), `InventoryView` (the row table
  as a map keyed by MAC or address), `Rescan` (repeating a scan), `Reachable` (all histories),
  `ScanRecord` (what one scan writes, field by field), `InventoryStore` (the mutable rows).
- **History.** `History` (differences), `Timeline` (events), `CompareRuns` (two runs),
  `ComparisonReport` (what its lists say of the rows), `EndToEnd` (reconcile, then compare).
- **Actions.** `Shell` (quoting against POSIX word splitting), `ActionSchema` (definitions and
  values), `AcceptedSchemas` (what accepted ones mean), `ActionCommands` (one template, three targets).
- **Audit.** `AuditLog` (pages and walks).
- **Trust.** `TrustLog` (tables against the change log), `TrustStore` (the mutable tables).
- **Limiters.** `Lockout`, `Throttle`, `Execution`.
- **Scope and text.** `Validation`, `AddressRanges` (texts and ranges as numbers), `Settings`,
  `Redaction`.
- **Vocabulary.** `Wrappers`, `Sequences`, `Texts`, `Decimal`.

Code that updates rows, buckets, semaphores or lists in place is modelled by classes and loops whose
contracts tie the new state to functions of the old one; the theorems are about those functions.
Times are integers, or reals in the throttle. A commit, or a request, is one atomic step. Device rows
are never removed from their table, so a device's id is its position counted from one.

## Where the code and its documentation differ

The model follows the code.

- Repeating a scan is idempotent exactly when no host adopts a row that an earlier MAC-less host of
  the same scan was merged into (`Rescan.RescanResolvesAlikeIff`, `Rescan.AdoptionExample`).
- `_sync_ports` reads the existing rows once; a host that lists an unknown port twice breaks the
  unique constraint and the whole scan is rolled back (`InventoryView.PortsStayUniqueIff`,
  `InventoryView.RepeatedPortExample`).
- A first-seen MAC is the device its MAC-less predecessor was, exactly when no other host with a
  never-seen MAC took the address in between (`Reachable.FirstMacSameDeviceIff`,
  `Reachable.TakeoverExample`).
- The audit walk never repeats a row, but it shows every row exactly when no tie of timestamps
  crosses a multiple of fifty (`AuditLog.WalkShowsAllIff`, `AuditLog.TiesAreSkipped`).
- The lockout duration is multiplied out before it is clamped, so from the forty-sixth consecutive
  failure on it overflows, the change is rolled back and the account is not locked again
  (`Lockout.FailureLocksIff`, `Lockout.NoLockPast45`, `Lockout.OverflowExample`).
- The announced wait of the throttle is cut to whole seconds, so it can end too early
  (`Throttle.LimitedWhenAnnounced`, `Throttle.AnnouncedEarlyIff`, `Throttle.EarlyExample`).
- `truncate` does not cap what it cuts: the notice is added to a full budget, so the result is within
  the budget exactly when the text was (`Redaction.CappedIff`).
- A placeholder or a parameter name may be followed by a newline, and ignoring case admits four
  letters outside ASCII (`ActionSchema.PlaceholderNameIff`, `AcceptedSchemas.ParamNameIff`).
- A fixed token holding a NUL is accepted for SSH, where no shell word can hold it
  (`ActionCommands.RemoteMeansLocal`, `ActionCommands.NulTokenExample`).

## Model

| member | source | states |
|---|---|---|
| `EndToEnd.SameMacComparesAsOne` | app/modules/history/service.py:471-534 | Two stored scans with any scans, pings, edits and removals between them: a host that answered both under one MAC is never listed as added, missing or outside, only as changed or unchanged, whatever its addresses. |
| `EndToEnd.FirstMacComparesAsOneIff` | app/modules/history/service.py:471-534 | A host first seen without a MAC and then, in the next stored scan, at its address with none or a never-seen one is compared as one host, changed or unchanged, exactly when no other host with a never-seen MAC took the address in between. |
| `Reachable.SameMacSameDevice` | app/modules/discovery/service.py:383-459 | A host answering two stored scans under one MAC is resolved to one device in both, whatever happened in between. |
| `Reachable.FirstMacSameDeviceIff` | app/modules/discovery/service.py:404-437 | A MAC-less host and its later first-seen MAC are resolved to one device exactly under that condition. |
| `Reachable.TakeoverExample` | app/modules/discovery/service.py:404-437 | Two scans for which it fails: an unseen MAC takes the address over in the first, and the MAC-less host of the second is a new device. |
| `Reachable.MacIsForGood` | app/modules/discovery/service.py:433-454 | Once a row has a MAC, no later scan, ping, edit or removal changes it. |
| `Reachable.EveryHistoryIsConsistent` | app/modules/discovery/service.py:383-498 | From an empty inventory, every sequence of scans, pings, edits and removals keeps: each MAC on one row, each address on one MAC-less row, each port once per device, no port without its device, ids equal to positions. |
| `Reachable.SweptScan` | app/modules/discovery/service.py:258-305 | One scan with an absence sweep whose start is no later than its merges: a device has present rows exactly when matched, one absent row exactly when silent, live, in range and last seen before the start; silent devices only turn offline, untouched ones stay as they were, operator fields never change, and `created` is the growth in rows. |
| `ScanRecord.SweptNetwork` | app/modules/discovery/service.py:338-380 | The same for a scan of one network: a device is marked offline and recorded as absent, once, exactly when no host was resolved to it, it is live, its address parses into the network and it was last seen before the scan began; any other unmatched device, one outside the network included, keeps its row and gets no absent row. |
| `ScanRecord.RecordedObservations` | app/modules/discovery/service.py:279-336 | The observations of such a scan one by one: each host with its own values under its resolved device, in the scan's order, with exactly its open ports in port order or no port list when ports were not checked; then only silent devices, each with its own row's values. |
| `ScanRecord.UpsertedRow` | app/modules/discovery/service.py:383-459 | Field by field, the row of a merged host: reported values replace, missing ones are kept, the row is live, online and just seen, operator fields stay, a new row starts without them, and no other row changes. |
| `ScanRecord.UpHostsInOrder` | app/modules/discovery/service.py:279-284 | The hosts merged are exactly those that were up, in the scan's order. |
| `InventoryView.UpsertRefines` | app/modules/discovery/service.py:383-498 | Merging one host into the row table is one update of a map keyed by MAC, or by address for MAC-less rows, ports included. |
| `InventoryView.MergeRefines` | app/modules/discovery/service.py:279-284 | Merging a scan is that update host by host, on the map. |
| `InventoryView.MergeOrderDoesNotMatter` | app/modules/discovery/service.py:383-459 | Hosts with pairwise distinct addresses and MACs give the same map in any order of merging. |
| `InventoryView.PortsStayUniqueIff` | app/modules/discovery/service.py:472-498 | `_sync_ports` keeps the unique constraint on (device, port, protocol) exactly when the host repeats no port that has no row yet; otherwise the commit fails. |
| `InventoryView.RepeatedPortExample` | app/modules/discovery/service.py:472-498 | A host listing one new port twice, for which it fails. |
| `InventoryView.SnapshotNeverStale` | app/modules/discovery/service.py:472-493 | Reading `existing` once before the loop gives the result of reading it again each turn, when the host's ports are distinct. |
| `Inventory.ResolveByKey` | app/modules/discovery/service.py:402-417 | The row found is the one carrying the host's MAC, else the MAC-less one at its address, else none. |
| `Rescan.RescanIsAFixpoint` | app/modules/discovery/service.py:279-284 | Merging the same hosts again creates no device and no port row, resolves every host to the same device, and changes nothing but timestamps, when no MAC-less host's row is adopted by a later host of the same scan. |
| `Rescan.RescanResolvesAlikeIff` | app/modules/discovery/service.py:404-437 | A repeated scan resolves every host as before exactly when no host of the scan adopts a row an earlier MAC-less host of it was merged into; in particular distinct addresses suffice. |
| `Rescan.DistinctAddressesSuffice` | app/modules/discovery/service.py:404-437 | Pairwise distinct addresses meet that condition. |
| `Rescan.AdoptionExample` | app/modules/discovery/service.py:404-437 | The concrete scan for which it fails: a MAC-less host followed by a new MAC at its address, where the second merge creates a device. |
| `Rescan.ScanIsPatch` | app/modules/discovery/service.py:433-454 | What a scan that creates nothing does to a row is one patch, which depends only on the hosts resolved to it. |
| `InventoryStore.Device.Refresh` | app/modules/discovery/service.py:433-454 | The field updates of a merged host, in place: known values are kept where the scan has none, and a removed row is revived. |
| `InventoryStore.Tables.SyncPorts` | app/modules/discovery/service.py:462-498 | The port loop, in place, equals its value-level specification. |
| `InventoryStore.Tables.Upsert` | app/modules/discovery/service.py:383-459 | `upsert_device` in place: finds, adopts, revives or adds the row and syncs its ports. |
| `InventoryStore.Tables.MarkAbsentOffline` | app/modules/discovery/service.py:338-380 | The sweep loop in place: each live row in range and last seen before the scan turns offline and every other row stays; returns the rows it found absent, in table order. |
| `InventoryStore.Tables.Reconcile` | app/modules/discovery/service.py:258-305 | `reconcile` in place: rows, observations and the number of new devices equal the value-level specification that the laws on one scan describe. |
| `Timeline.ScanEvents` | app/modules/history/service.py:196-287 | The events are exactly the transitions, one each and in order: at increasing observations, each with that run and time, and with the kind and difference it demands; every first sighting, start of a silence, return and difference from the last sighting is there; scans and answers are counted. |
| `Timeline.EventsTell` | app/modules/history/service.py:196-287 | The list that the replay laws speak of tells those transitions and no others. |
| `Timeline.TimelineReplays` | app/modules/history/service.py:120-142 | Applying the reported differences in order to the first sighting gives the last sighting's fields, and its open ports when every sighting checked ports. |
| `History.DiffCarriesFields` | app/modules/history/service.py:120-142 | Reported field changes take the earlier fields to the later ones. |
| `History.DiffCarriesPorts` | app/modules/history/service.py:120-142 | Reported openings and closings take the earlier open ports to the later ones. |
| `History.DiffIsSymmetric` | app/modules/history/service.py:120-142 | Comparing the other way round exchanges opened with closed and the two values of every changed field, in the same order, and reports change alike. |
| `History.ListingOrderIsFixed` | app/modules/history/service.py:120-142 | Whatever order the set difference is enumerated in, the sorted list of ports is the same. |
| `History.LabelSortsByPort` | app/modules/history/service.py:109-117 | The sort key read back from a label is its protocol and port number, also when the service name holds slashes or spaces. |
| `History.FieldsReported` | app/modules/history/service.py:120-131 | A difference reports a field exactly when its values differ and are not both blank, with both values, each field once and in order. |
| `History.PortsReported` | app/modules/history/service.py:99-142 | The ports listed as opened are, each once, the texts of exactly the last entries for ports the other side does not list. |
| `History.NewAreInOrder` | app/modules/history/service.py:109-142 | They are listed TCP before UDP and then by number. |
| `History.ChangedIff` | app/modules/history/service.py:86-88 | A host counts as changed exactly when a field is reported, or both sides list ports and one lists a port the other does not. |
| `CompareRuns.CompareRuns` | app/modules/history/service.py:471-556 | The runs compare exactly when both succeeded with observations, their ports when both checked them; added, missing, outside and changed then hold exactly one delta for each key of their class, sorted by address, and the rest is counted; otherwise nothing is listed. |
| `ComparisonReport.AddedMissingOutside` | app/modules/history/service.py:500-540 | Of every comparison: added are exactly the hosts present only in the later scan's rows, with its ports; missing exactly those present only in the earlier one's whose last address there parses into the later scan's range; outside exactly those whose address does not. Each is named and addressed by its last present row, each list is in address order, and none repeats an entry. |
| `ComparisonReport.ChangedAndUnchanged` | app/modules/history/service.py:520-534 | Changed are exactly the hosts whose last present rows in both scans differ in a field, or in ports when both scans checked them, each with what differs; the count is that of the hosts whose rows do not. |
| `CompareRuns.KeyOrderIsTheKeys` | app/modules/history/service.py:500-501 | The dictionaries of present rows have each key once, and hold a row of that key. |
| `CompareRuns.EveryKeyInOneClass` | app/modules/history/service.py:500-534 | The five classes are disjoint and together cover both scans' keys. |
| `CompareRuns.ComparisonAddsUp` | app/modules/history/service.py:512-556 | Added, changed and unchanged count the later scan's keys; missing, outside, changed and unchanged the earlier's. |
| `CompareRuns.SwappingTheRuns` | app/modules/history/service.py:471-556 | Swapping the runs exchanges added with missing and outside, and for each changed host opened with closed and the values of every changed field, and keeps changed and unchanged. |
| `Shell.SplitUndoesQuoting` | app/modules/actions/schema.py:269-295 | Quoted with `shlex.quote` and joined, words split back into themselves under POSIX word splitting, exactly when none holds a NUL. |
| `ActionCommands.RemoteMeansLocal` | app/modules/actions/schema.py:245-295 | The words a POSIX shell makes of the SSH command are the local argument list, or both are refused with the same error; the one exception is a fixed token holding a NUL. |
| `ActionCommands.NulTokenExample` | app/modules/actions/schema.py:144-201 | A definition that is accepted for SSH and has such a token. |
| `ActionCommands.ArgvFollowsTemplate` | app/modules/actions/schema.py:245-266 | For every definition that could be stored: one argument per token, fixed tokens in place, each parameter replaced by its validated value, and a failure only ever for a parameter's value. |
| `ActionCommands.BuildArgv` | app/modules/actions/schema.py:245-266 | The loop computes the argument list or the first failure. |
| `ActionCommands.BuildSshCommand` | app/modules/actions/schema.py:269-295 | The loop computes the quoted arguments joined by spaces, or the first failure. |
| `ActionCommands.BuildPreview` | app/modules/actions/schema.py:298-334 | The loop computes the masked record, quoted or not. |
| `ActionCommands.PreviewHidesSecrets` | app/modules/actions/schema.py:298-334 | Values that agree on the parameters that are not secret give the same preview. |
| `ActionCommands.PreviewIsTheMaskedCommand` | app/modules/actions/schema.py:298-334 | Whenever the arguments can be built the preview can, and it is those arguments, each secret one shown as `[redacted]` and every other as it is. |
| `ActionCommands.PreviewIsFaithful` | app/modules/actions/schema.py:298-334 | With no secret parameter the preview is the joined arguments, or the SSH command when quoting. |
| `ActionCommands.RedactHidesSecrets` | app/modules/actions/schema.py:337-342 | Stored values keep their keys, hold `[redacted]` for each secret and every other value as it is, and two submissions store alike exactly when they have the same keys and agree outside the secrets. |
| `ActionSchema.CoerceMeansFits` | app/modules/actions/schema.py:204-242 | Every coerced value meets its schema entry, and the values that meet it are exactly those coercion leaves as they are. |
| `ActionSchema.CoerceIsIdempotent` | app/modules/actions/schema.py:204-242 | Coercing a coerced value changes nothing. |
| `AcceptedSchemas.CoerceIff` | app/modules/actions/schema.py:204-242 | A submitted value is taken as a text exactly when it is optional and empty; or short, without NUL, and a number within its bounds, taken in its usual spelling; or an allowed choice that matches the pattern, taken as it is. |
| `AcceptedSchemas.CoerceRefusesIff` | app/modules/actions/schema.py:204-242 | It is refused exactly for the first of those checks that fails. |
| `ActionSchema.ReadPrintedInt` | app/modules/actions/schema.py:226-234 | A whole number reads back from its canonical spelling. |
| `ActionSchema.PlaceholderNameIff` | app/modules/actions/schema.py:31 | A token is a placeholder exactly when it is a name of at most 32 characters in braces, or that and a newline. |
| `ActionSchema.ParseSchema` | app/modules/actions/schema.py:62-130 | Succeeds with one entry per parameter exactly as each parses; a failure is that of some faulty entry. |
| `AcceptedSchemas.EntryParsesIff` | app/modules/actions/schema.py:72-128 | An entry parses to a parameter exactly when it spells it: name, type, pattern, choices, bounds cut toward zero, required unless it says otherwise, secret only if it says so, and the SSH rule. |
| `AcceptedSchemas.SchemaSpells` | app/modules/actions/schema.py:62-130 | An accepted schema is an object of at most ten entries, and its parameters are those they spell. |
| `AcceptedSchemas.ParamNameIff` | app/modules/actions/schema.py:35 | A parameter name is one to thirty-two letters, digits and underscores, a letter first, and perhaps a newline after them. |
| `ActionSchema.AcceptedSpecs` | app/modules/actions/schema.py:79-128 | What every accepted entry guarantees: its name, a compiling pattern that constrains, non-empty choices, and for an SSH string one of the two. |
| `ActionSchema.SshTextIsConstrained` | app/modules/actions/schema.py:104-112 | A text that an SSH string parameter puts into a command was matched by a constraining pattern or is one of the choices. |
| `ActionSchema.ValidateTemplate` | app/modules/actions/schema.py:144-201 | Accepts exactly the templates that are non-empty, within the limit, start with a fixed program, embed no parameter, and use exactly the schema's parameters; each refusal says what is wrong. |
| `AcceptedSchemas.TemplateAcceptedIff` | app/modules/actions/schema.py:144-201 | What acceptance of a template means, token by token. |
| `AcceptedSchemas.EmbedsIff` | app/modules/actions/schema.py:32-33 | A token embeds a parameter exactly when it is some text around a name in braces. |
| `ActionSchema.ValidateDefinition` | app/modules/actions/service.py:70-95 | Accepts exactly the definitions whose name, type, timeout, schema and template are acceptable; a refusal names the first check that fails. |
| `AcceptedSchemas.DefinitionAcceptedIff` | app/modules/actions/service.py:70-95 | A definition is accepted exactly when its name is neither blank nor longer than 128, its type is local or ssh, its timeout is from 1 to 300 seconds, and schema and template are accepted for that type. |
| `AuditLog.AuditPage` | app/modules/audit/routes.py:129-188 | The page is the newest fifty, newest first, of the stored rows that the filter word asks for and that are older than the cursor, each source by its own word and all four without one; `has_more` holds exactly when there are more than fifty, and the next cursor is the last row's time. |
| `AuditLog.NoRowRepeats` | app/modules/audit/routes.py:147-188 | Over a walk by `next_cursor`, whatever is stored in between, no row is shown twice and the pages run newest first. |
| `AuditLog.WalkIsBounded` | app/modules/audit/routes.py:174-188 | Every page before the last shows fifty rows not shown before, so a walk over finitely many rows ends. |
| `AuditLog.WalkShowsAllIff` | app/modules/audit/routes.py:147-188 | While the stored rows stay the same, a finished walk shows all of them exactly when no tie of timestamps, counted newest first, crosses a multiple of fifty. |
| `AuditLog.StoredRowsShownIff` | app/modules/audit/routes.py:147-188 | Whatever else is stored meanwhile, a row stored throughout a finished walk is shown exactly when no page boundary cut a tie that it lost. |
| `AuditLog.WalkShowsTheFirstLog` | app/modules/audit/routes.py:147-188 | With distinct timestamps and only newer rows arriving, the walk shows exactly the rows stored at the first request, newest first, each once. |
| `AuditLog.TiesAreSkipped` | app/modules/audit/routes.py:147-171 | Of more than fifty rows of one instant, every finished walk leaves one out. |
| `TrustLog.LogRebuildsTables` | app/modules/credentials/routes.py:106-311 | After every run of requests, replaying the change log gives who holds which credential, by the name the log keeps, and which host keys are trusted. |
| `TrustLog.LogNamesAssignments` | app/modules/credentials/routes.py:149-182 | When no other credential shares the first 255 characters of its name, an assignment is stored exactly when the replayed log has it. |
| `TrustLog.ReplayedKeyIsLastTrust` | app/modules/credentials/routes.py:269-311 | The replayed key of a device and type is the one of a trust event with no later revocation of the device and no later trust of that type. |
| `TrustLog.ConnectsOnlyUnderTrust` | app/modules/ssh/client.py:141-190 | An SSH action runs only under a key whose fingerprint such a trust event records, with a credential the log says the device holds. |
| `TrustLog.DeleteHoldings` | app/modules/credentials/routes.py:114-142 | The assignments a deleted credential takes with it are exactly those its unassign events take off the log's account. |
| `TrustStore.Store.CreateCredential` | app/modules/credentials/routes.py:50-103 | Stores the stripped name and logs it, unless it is empty or taken. |
| `TrustStore.Store.DeleteCredential` | app/modules/credentials/routes.py:106-142 | Deletes the credential and its assignments and logs one event per device, then the deletion. |
| `TrustStore.Store.AssignCredential` | app/modules/credentials/routes.py:149-182 | Assigns or unassigns and logs only what changed. |
| `TrustStore.Store.TrustHostKey` | app/modules/credentials/routes.py:217-281 | Unless the device is live and presents a key with the reviewed fingerprint nothing is stored or logged, and the answer says which failed; otherwise that key fills its slot, other slots keep theirs, and one event is logged. |
| `TrustLog.OnlyReviewedKeysAreStored` | app/modules/credentials/routes.py:217-281 | Over every run, each stored host key was put there by a request for its device, live then, that presented this key with the fingerprint reviewed. |
| `TrustLog.OnlyReviewedKeysAreLogged` | app/modules/credentials/routes.py:217-281 | So was each trust event in the log. |
| `TrustStore.Store.RevokeHostKey` | app/modules/credentials/routes.py:287-311 | Forgets every key of the device and logs it when there was one. |
| `TrustLog.TrustKeepsSlots` | app/modules/credentials/service.py:170-225 | After trusting, the device and type have that key and no other, and every other row is as it was. |
| `TrustStore.Store.KeepKey` | app/modules/credentials/service.py:170-225 | At most one row per device and key type; a new key replaces the old one. |
| `TrustStore.Store.ForgetKeys` | app/modules/credentials/service.py:228-241 | Removes exactly the device's rows and says how many. |
| `TrustStore.Store.AddAssignment` | app/modules/credentials/service.py:101-116 | Adds the row unless it is there. |
| `TrustStore.Store.DropAssignment` | app/modules/credentials/service.py:119-134 | Removes the row if it is there. |
| `TrustStore.Store.TrustedKeyFor` | app/modules/credentials/service.py:153-158 | Some row of the device, or none exactly when it has none. |
| `Lockout.GuessingIsSlow` | app/modules/auth/service.py:48-109 | Over every run of attempts without a success on an active account with no failure on record, the k-th evaluated wrong password comes at least 31 + 30 (k - 10) minutes after the fifth, for k from 10 to 46. |
| `Lockout.LockDurations` | app/modules/auth/service.py:48-52 | 1, 2, 4, 8, 16 and then 30 minutes; past forty-five failures the duration overflows before it is clamped. |
| `Lockout.FailureLocksIff` | app/modules/auth/service.py:86-97 | From the fifth on, a wrong password locks the account exactly when fewer than forty-five are recorded; after that it changes nothing. |
| `Lockout.NoLockPast45` | app/modules/auth/service.py:86-97 | From forty-five recorded failures on, any number of wrong passwords is evaluated without delay. |
| `Lockout.OverflowExample` | app/modules/auth/service.py:86-97 | A run of attempts that records forty-five failures, after which the next one locks nothing. |
| `Lockout.LockedAccountsStay` | app/modules/auth/service.py:76-80 | While an account is locked no attempt succeeds or changes it, whatever the password. |
| `Lockout.Authenticate` | app/modules/auth/service.py:65-109 | In place: accepts exactly an active, unlocked user with the right password and clears its counters; leaves locked and disabled users as they were; otherwise adds one failure, locking from the fifth on; and answers an unknown name like a wrong password. |
| `Throttle.PruningIsInvisible` | app/modules/auth/throttle.py:44-80 | Under a clock that never runs back, `is_limited`, and for a limit of one or more `retry_after`, answer as on the full history of failures since the last reset or eviction. |
| `Throttle.LimitedIff` | app/modules/auth/throttle.py:44-70 | After every run of calls under such a clock an address is limited exactly when it is tracked and has enough failures in the window, counted from the calls since its last reset or the last time a full table was dropped for a new address. |
| `Throttle.TrackedIsBounded` | app/modules/auth/throttle.py:56-66 | No run of calls tracks more than 10,000 addresses. |
| `Throttle.WaitIsExact` | app/modules/auth/throttle.py:72-80 | With whole-second times a limited address stays limited until the announced moment, and is free then exactly when fewer than the limit of its failures are newer than the oldest. |
| `Throttle.LimitedWhenAnnounced` | app/modules/auth/throttle.py:72-80 | For any number of failures and any times, whether a limited address is still limited at the announced moment: always when a fraction beyond whole seconds was cut off; otherwise exactly when enough failures are newer than the oldest, or than the window a second later. |
| `Throttle.AnnouncedEarlyIff` | app/modules/auth/throttle.py:72-80 | With exactly the limit of failures in the window, it is still limited exactly when more than a second was left and not a whole number of them. |
| `Throttle.EarlyExample` | app/modules/auth/throttle.py:72-80 | One failure at a limit of one, announced to end half a second too early. |
| `Throttle.LoginThrottle.IsLimited` | app/modules/auth/throttle.py:48-54 | Limited exactly when enough of the bucket's failures are newer than the window's start; prunes that bucket and no other. |
| `Throttle.LoginThrottle.RecordFailure` | app/modules/auth/throttle.py:56-66 | With 10,000 others tracked, drops them all for a new address; otherwise keeps the other buckets, prunes its own and appends the failure. |
| `Throttle.LoginThrottle.RetryAfter` | app/modules/auth/throttle.py:72-80 | Prunes the bucket in place and answers the whole seconds left, at least one; fails only for a limit of zero and a bucket that pruning emptied. |
| `Execution.EveryInterleavingBalances` | app/core/execution.py:160-198 | After every interleaving of runs that finish, fail to spawn, time out or are cancelled, in each pool free plus held permits equal its capacity and nobody waits. |
| `Execution.NobodyWaits` | app/core/execution.py:182-190 | A call is admitted at once, or refused as busy exactly when every permit of its pool is held. |
| `Execution.RunsGoTheirOwnWay` | app/core/execution.py:160-257 | Under every interleaving, where a run stands, and its result if it has ended, follows from its own steps and from whether a permit was free when it called: rejected, busy, failed to spawn, finished, timed out and killed, or cancelled. |
| `Execution.PermitsComeBackOnce` | app/core/execution.py:190-198 | Each admitted run takes exactly one permit and, once ended, has given it back exactly once, to the pool it came from; a refused run takes none; discovery runs never touch the general pool, nor others theirs. |
| `Execution.NothingLeaks` | app/core/execution.py:192-198 | When every run has ended both pools are full. |
| `Execution.ExecutionEngine.Enter` | app/core/execution.py:166-190 | `run` up to its first suspension is one step of the model. |
| `Execution.ExecutionEngine.Leave` | app/core/execution.py:192-198 | The `finally` clause is the other. |
| `Validation.ScanTargetAcceptedIff` | app/core/validation.py:142-167 | A target is accepted exactly when it parses to a network whose every address lies in one allowlist entry and which has at most the host limit of addresses. |
| `Validation.ScanStaysInScope` | app/core/validation.py:98-167 | Every address of an accepted target is allowlisted, private and not blocked, and there are at most `max_hosts` of them. |
| `Validation.CheckedIsSafe` | app/core/validation.py:107-127 | Every address of an accepted range is private and none is blocked. |
| `Validation.SubnetMeansEveryAddress` | app/core/validation.py:98-139 | One network is a subnet of another exactly when every address of it lies in the other. |
| `Validation.OverlapMeansSharedAddress` | app/core/validation.py:98-139 | Two networks overlap exactly when they share an address. |
| `Validation.AddressCount` | app/core/validation.py:142-167 | A network has exactly as many addresses as its size, the number the host limit is compared with. |
| `Validation.ParsePrintedNetwork` | app/core/validation.py:67-95 | A printed network parses back to itself (prefix notation of section 3.1 of RFC 4632). |
| `Validation.PrintedNetworksDiffer` | app/core/validation.py:67-95 | Different networks print differently. |
| `AddressRanges.ParseAddressIff` | app/core/validation.py:67-79 | A text is an address exactly when it is that address's dotted quad without leading zeros. |
| `AddressRanges.ParsePrefixIff` | app/core/validation.py:79-81 | A prefix length is written as a number up to 32, as a netmask, or as an inverse mask that is no netmask. |
| `AddressRanges.ParseNetworkIff` | app/core/validation.py:67-95 | A text is a network exactly when, stripped, it is the network's first address, a slash and its prefix length. |
| `AddressRanges.HostBitsAreRefused` | app/core/validation.py:79-90 | An address and prefix length name a network exactly when no host bits are set, and are refused with the network they lie in otherwise. |
| `AddressRanges.AllowedIff` | app/core/validation.py:107-127 | A range can be managed exactly when all its addresses are private and none is reserved. |
| `Settings.ParseCidrList` | app/modules/settings/service.py:79-97 | The loop over lines and commas computes the ordered list, or the first refusal. |
| `Settings.SavingThePrintedListChangesNothing` | app/modules/settings/routes.py:25 | Joining an accepted list with newlines, as the settings page prints it, and parsing it again gives the same list. |
| `Settings.SavedListHoldsExactlyTheEntries` | app/modules/settings/service.py:79-97 | The list is accepted exactly when it has an entry and every entry is a manageable range, and holds exactly the printed forms of the networks they name. |
| `Settings.SavedInOrder` | app/modules/settings/service.py:79-97 | They stand in the order in which the entries first gave them. |
| `Settings.EntriesArePieces` | app/modules/settings/service.py:84-88 | The entries are the pieces of the text between line breaks and commas, stripped, but for empty ones. |
| `Settings.ScansStayInsideTheSavedRanges` | app/modules/settings/service.py:46-47 | A target accepted under saved settings scans only addresses of the saved ranges, all private and none blocked. |
| `Settings.ParseLocalNetworks` | app/modules/discovery/service.py:35-68 | The loop computes the distinct interface networks in order, loopback left out. |
| `Settings.LocalNetworksAreNamed` | app/modules/discovery/service.py:35-68 | They are those that some line names after its first `inet`, loopback networks left out, each once. |
| `Settings.SuggestScanTargets` | app/modules/discovery/service.py:95-103 | The filter computes the suggestions. |
| `Settings.SuggestionsAreExactlyTheAcceptable` | app/modules/discovery/service.py:95-103 | The suggested networks are exactly the local ones that the scan gate accepts. |
| `Settings.SuggestedInOrder` | app/modules/discovery/service.py:95-103 | They keep the order of the local networks. |
| `Redaction.TruncateKeepsWhatFits` | app/core/redaction.py:85-97 | A text is kept unchanged exactly when its UTF-8 form fits the budget; otherwise what is left is its one longest prefix that fits and the notice, lone surrogates shown as question marks (section 3 of RFC 3629). |
| `Redaction.DecodeCut` | app/core/redaction.py:96-97 | UTF-8 bytes cut anywhere decode to the longest prefix whose bytes are all there. |
| `Redaction.DecodeEncoded` | app/core/redaction.py:92-96 | Decoding undoes encoding. |
| `Redaction.CappedIff` | app/core/redaction.py:85-97 | The result is within the byte budget exactly when the text was; every cut text exceeds it. |
| `Redaction.CutTextSize` | app/core/redaction.py:85-97 | A cut text takes the budget and the notice, less at most three bytes of a code point cut off. |
| `Redaction.CleanedTextIsPlain` | app/core/redaction.py:59-61 | Cleaning leaves a subsequence with no control character but tab and newline, leaves a text as it is exactly when it has none, and is idempotent. |
| `Redaction.PlainCharactersStay` | app/core/redaction.py:39-61 | Only tab, newline, printable ASCII and what comes from U+00A0 on is left, and of a text without ESC all of that. |
| `Redaction.EscapeLengthIff` | app/core/redaction.py:23-37 | The escapes taken out are exactly those of the three forms. |
| `Redaction.EscapesVanish` | app/core/redaction.py:23-37 | After plain characters a complete escape (a control sequence, an operating command up to its first terminator, else two characters) disappears whole, and of any other start that is not plain the first character alone. |

## Left out

- ParseAddress: IPv4 only; IPv6 texts neither parse nor compare, since the scan and settings gates accept IPv4 alone.
- Lines: a carriage return and newline count as two line breaks where `str.splitlines()` counts one; every caller drops the empty line between.
- CompareRuns: the order of changed hosts that share an address follows the enumeration of a set and is left open; notes and the rendered lines of a difference are not modelled.
- Pinged: the rolling latency figure is not part of a device row.
- RescanIsAFixpoint: the ports of one host are taken to be distinct; of the scans that repeat one, those repeating a port without a row are rolled back.
- Coerce: values are strings, as the route hands them over; other objects and their `str()` are not modelled.
- OptionalInt: infinite and undefined JSON numbers are not modelled.
- ParseSchema: which of several faulty entries is reported depends on the order of the object and is left open; descriptions are not kept.
- AuditPage: the four queries are parameters, described as the newest fifty-one rows of their table with ties in any order; rendering of rows and parsing of the cursor text are not modelled.
- Connects: any stored key of the device may be the one presented, as the query for it has no order; the choice among several assigned credentials is left open.
- CreateCredential: checks of the user name, type and secret are one parameter; encryption is not modelled.
- LogRebuildsTables: the key type of a trust event stands for the text it is written in; fingerprints are digests of keys, by an arbitrary digest function.
- Enter: resolving the program, checking arguments and the timeout are one parameter; spawning, signals and output are outcomes.
- Regex matching of parameter patterns, compiling them, decimal digits outside ASCII and resolving programs are arbitrary functions.
- Shell interpretation beyond splitting into words: assignments, reserved words and aliases.
- XML parsing of scan output: the model starts from parsed hosts, whose texts are never empty.
- `device_timeline`: its per-source cap makes it no exact merge.
- `mask_secrets`, `redact_values`, `explain.py`, `builders.py`, `retention.prune`, `describe_*` texts, the writes of `save` and password rules: flat branching or single filters.
- HTTP routing, templates, sessions, SQLAlchemy, migrations, SSH, encryption and password hashing: foreign calls and plumbing.
