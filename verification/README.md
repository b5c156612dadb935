# MFA enrollment reconciliation, modelled in Dafny

This project models the reconciliation tasks of the `outpost.django.mfa`
application (`UserTasks` in `src/outpost/django/mfa/tasks.py`). The tasks keep
three things in step: the directory's *MFA users* group, the directory's
*locked* group, and the local `LockedUser` table. They work from a snapshot of
the DUO provider's users.

The model is functional. A `World` (module `State`) holds:

- the two groups, as sets of distinguished names;
- the directory, as a map from common name to DN;
- the provider snapshot, as a map from username to `ProviderUser(isEnrolled, created)`;
- the `LockedUser` table, as a map from primary key to `LockedUser(username, locked, unlocked)`;
- the table's autoincrement counter;
- the list of queued follow-up jobs.

Every task is a pure function from a world to a new world. The two bulk scans
are folds over the entries of one directory search:

- `Locking.Lock` and `Locking.Unlock` are the single-record tasks.
- `Enrollment.EnrollmentTimeout` folds `Enrollment.TimeoutStep` over the entries.
- `Synchronization.Synchronize` folds `Synchronization.SyncStep` over the entries.
- `Activation.Activate` is the decision of the deferred activation.

Inputs stand in for I/O:

- `commitOk` is the directory's answer to a group commit. The bulk sync gets it per entry through `Visit`.
- `now` and `interval` are integer timestamps and durations.
- `resolvable` is the set of usernames that resolve to a local user, directly or by populating from the directory. A user who owns a row always resolves, because the row's foreign key keeps the local user.
- `queued` says whether the task runs from a job queue.
- `retries` is the queue's retry count, and `syncOk` is the provider's answer to a sync call.

A scan that meets several `LockedUser` rows for one username stops, just as
`objects.get` raises `MultipleObjectsReturned`. It returns `Run(world, crashed := true)`
with the effects so far kept. `State.Valid` (unique usernames, fresh keys, never
locked and unlocked at once) rules this out, and every task preserves it when
tasks run one after another.

Three behaviours of the code are kept as written, even where one might expect otherwise:

- Dry run does not suppress three writes. These are the bulk sync's deletion of an enrolled user's row (tasks.py:89-95), the sweep's drift re-stamp (tasks.py:188-191), and Unlock's deletion of a vanished user's row (tasks.py:300-303).
- Lock's directory lookup is not checked. A missing entry makes the task fail before anything is saved. The model returns `Failure(EntryMissing)` and leaves the world unchanged.
- `transaction.on_commit` runs its callback at once outside a transaction. So the sweep's Lock job is appended straight away.

## Model

| member | source | states |
|---|---|---|
| `Directory.FindUser` | src/outpost/django/mfa/tasks.py:238-246 | The exact-cn search finds an entry precisely when the directory holds that cn, returns that cn's DN, and never has its filter refused |
| `Directory.CnFilterRoundTrip` | src/outpost/django/mfa/tasks.py:242 | Reading back the filter `(cn=<name>)` gives exactly the name it was built from |
| `Store.FindByUsername` | src/outpost/django/mfa/tasks.py:176-178 | Lookup by username reports no row exactly when none belongs to the user, the one row when exactly one does, and an error when several do |
| `Store.FreshKey` | src/outpost/django/mfa/tasks.py:211 | A newly created row gets a key no existing row holds, the first free one from the counter on |
| `Locking.Lock` | src/outpost/django/mfa/tasks.py:215-265 | Fails on a missing row or a missing directory entry. Otherwise it only adds the user's own DN to the locked group, only on a committed change outside dry run. The row changes only when the DN ends in the locked group and it is not a dry run. A committed addition stamps `locked=now, unlocked=None`. A failed commit or dry run changes nothing. An earlier lock timestamp is never advanced. Validity is preserved |
| `Locking.Unlock` | src/outpost/django/mfa/tasks.py:267-323 | A missing row fails. A vanished user's row is deleted with no group change. Otherwise it only removes the user's own DN, only on a committed change. The row changes only when the DN ends outside the group and it is not a dry run. A committed removal stamps `locked=None, unlocked=now`. A failed commit or dry run changes nothing. An earlier unlock timestamp is never advanced |
| `Locking.LockIdempotent` | src/outpost/django/mfa/tasks.py:248-253 | After a saved Lock has left the user in the locked group, any further Lock leaves the world exactly as it is |
| `Locking.UnlockIdempotent` | src/outpost/django/mfa/tasks.py:305-311 | After a saved Unlock has left the user outside the locked group, any further Unlock leaves the world exactly as it is |
| `Locking.LockThenUnlock` | src/outpost/django/mfa/tasks.py:248-323 | Lock followed by a committed Unlock leaves the locked group as it was minus the user's DN, with the row unlocked. The unlock timestamp is the Unlock's whenever the Lock had put the user in the group |
| `Enrollment.Enforce` | src/outpost/django/mfa/tasks.py:200-213 | Dry run changes nothing, and neither does a user with no row who cannot be resolved to a local user; a user who owns a row always resolves. Otherwise a row for the user exists afterwards, and a Lock job is queued for it when it is new or was never locked. Existing rows never change and a created row starts with both timestamps empty |
| `Enrollment.TimeoutStep` | src/outpost/django/mfa/tasks.py:159-213 | Users unknown to the provider, enrolled, or inside the window are skipped. So is a row in its grace period whose entry is outside the locked group. Several rows for an expired user stop the sweep. Groups never change. An existing row changes only by a released row being re-stamped `locked=now, unlocked=None` for an entry in the locked group. At most one Lock job is queued, for this user's new or never-locked row, outside dry run. Conversely, outside dry run in a valid world, an expired user with a local account and no row in grace, who is outside the locked group or has no row at all, ends the step with a row, and a Lock job is queued for it unless it already has a lock timestamp |
| `Enrollment.EnrollmentTimeout` | src/outpost/django/mfa/tasks.py:159-213 | A whole pass never touches groups, directory or provider. It keeps every row and owner. In dry run it creates no row and queues nothing. Rows change only by the drift re-stamp. A valid world never stops the pass and stays valid |
| `Enrollment.SweepSparesRows` | src/outpost/django/mfa/tasks.py:162-198 | A row whose user is absent from the provider, enrolled, or inside the window is never changed or locked. Neither is a row in its post-unlock grace period with no entry in the locked group |
| `Enrollment.SweepCreatesOnlyForExpired` | src/outpost/django/mfa/tasks.py:200-213 | Every row a pass creates belongs to a user it reached whose enrollment window has expired |
| `Enrollment.SweepLocksOnlyExpired` | src/outpost/django/mfa/tasks.py:211-213 | Every job a pass queues is a Lock job, queued outside dry run, for an existing row of an expired user it reached |
| `Enrollment.DriftSelfHeal` | src/outpost/django/mfa/tasks.py:184-192 | For an expired user already in the locked group, the entry re-stamps a released row as locked now. It queues nothing and creates no row, even in dry run |
| `Enrollment.SweepLocksExpired` | src/outpost/django/mfa/tasks.py:176-213 | Over a whole pass outside dry run in a valid world, every reached expired user with a local account and no row in grace, who is outside the locked group or has no row at all, ends the pass with a row; if that row has no lock timestamp, the pass queued a Lock job for it |
| `Enrollment.SweepHealsDrift` | src/outpost/django/mfa/tasks.py:184-192 | Over a whole pass that reaches an expired user whose entry is in the locked group, that user's row ends with `unlocked` cleared, and a released row ends locked at this pass's time |
| `Synchronization.SyncStep` | src/outpost/django/mfa/tasks.py:83-114 | An enrolled user's row is dropped. Only a user unknown to the provider joins the MFA group, only on a committed change outside dry run, and is then certainly a member. An activation (queued job or inline sync) follows exactly each addition. Several rows for an enrolled user stop the sync |
| `Synchronization.Synchronize` | src/outpost/django/mfa/tasks.py:83-114 | A pass never touches the locked group, directory, provider or counter. It only removes rows and only adds members. Dry run adds nothing and queues nothing. A valid world never stops the pass and stays valid |
| `Synchronization.SyncCompletes` | src/outpost/django/mfa/tasks.py:86-105 | After a complete pass, every user unknown to the provider whose commit succeeded is in the MFA group outside dry run. No row remains for any reached enrolled user |
| `Synchronization.SyncAddsOnlyUnknown` | src/outpost/django/mfa/tasks.py:97-102 | Every DN a pass adds to the MFA group belongs to a reached user unknown to the provider whose commit succeeded, outside dry run |
| `Synchronization.SyncDeletesOnlyEnrolled` | src/outpost/django/mfa/tasks.py:86-96 | A pass deletes only rows of users the provider reports enrolled |
| `Synchronization.SyncIdempotent` | src/outpost/django/mfa/tasks.py:83-105 | Re-running a completed pass over the same entries, with the same commit answers, changes nothing and queues nothing |
| `Activation.Activate` | src/outpost/django/mfa/tasks.py:346-367 | Syncs exactly when the user's entry is in the MFA group and the provider accepts. Otherwise a queued run retries after 3^retries seconds while fewer than 10 retries were made, and is refused after that. A run outside a queue is dropped |
| `Activation.AsWrittenFilterRefused` | src/outpost/django/mfa/tasks.py:346-352 | The filter Activate builds as written is refused by the search for every username not ending in `)` |
| `Activation.AsWrittenCounterexample` | src/outpost/django/mfa/tasks.py:350 | For `alice`, the as-written search is refused while the corrected exact-cn lookup finds her entry |
| `Scenarios.AliceIsActivated` | src/outpost/django/mfa/tasks.py:97-114 | alice is unknown to the provider and not in the MFA group. A bulk sync outside a queue adds her and hands her to the inline provider sync |
| `Scenarios.BobIsLocked` | src/outpost/django/mfa/tasks.py:159-265 | bob was created five days ago with a three-day window. The sweep creates his row and queues its Lock job, and that Lock adds him to the locked group with `locked=now`. A user created one day ago is left alone |

## Findings

| source | as written | input that shows it | evidently intended | confidence | as-written member | corrected member |
|---|---|---|---|---|---|---|
| src/outpost/django/mfa/tasks.py:350 | Activate searches with the filter `(cn=<username>`, which lacks its closing parenthesis | username `alice`, whose entry is in the directory and the MFA group | the exact-cn filter `(cn=alice)` that Lock and Unlock use | medium, not executed | `Activation.AsWrittenFilterRefused` | `Activation.Activate` |

`Activation.Activate` uses the corrected lookup `Directory.FindUser`. It reads
membership from the MFA group's member set. As written, Activate instead reads
`memberOf`, which its search does not request. The model does not represent
that second defect separately. The corrected decision covers both.

## Left out

- Directory connections, searches by `Reader`, the DUO client, `api.get_users` and `api.sync_user` are network I/O. They are replaced by the snapshot fields of `World` and the `commitOk`/`syncOk` inputs.
- Retry with backoff around the inline provider sync (tasks.py:78-81, 106-114) is scheduling, not decision logic. The inline sync is recorded as the job `InlineSync(username)`, and its outcome is not modelled.
- Celery's `update_state` progress reporting, queue routing and task transport are left out. Only "queued or not" is kept, as the `queued` flag.
- `transaction.on_commit` inside an open transaction is left out. Outside one it runs immediately, which is what the model does.
- `LDAPBackend().populate_user` and the local user table are reduced to the set `resolvable`. The model assumes a resolved local user's username equals the entry's cn.
- Pending group changes are left out. After a failed or dry-run group change, ldap3 keeps the change pending on the writable entry, and it may ride along with a later commit. The model treats each commit independently.
- `isodate.parse_duration`, naive versus time-zone-aware datetimes, and the separate clocks `datetime.now()` and `timezone.now()` become one integer `now` per run.
- LDAP filter escaping and wildcards in usernames are left out. The directory is a map keyed by exact cn, and a search returns at most one entry.
- Concurrency is left out: tasks are modelled one run at a time. `LockedUser.local` carries no unique constraint, so two sweeps running `get_or_create` (tasks.py:211) at the same moment can create two rows for one user. That breaks `State.Valid`, and later lookups by username (tasks.py:91, 177) then stop the scan. "Every task preserves `State.Valid`" holds only for runs one after another.
- The web unlock view, its IP allow-list, the photo upload and `UnlockEvent` are UI and HTTP code, outside the reconciliation core. So are the admin unlock action, its permission hook, and the settings and field declarations.
