# orianna-hibernate store core, in Dafny

A model of the Hibernate-backed data store of the Orianna library, with proofs of its
properties. The store has three parts, each modelled here.

- **Session registry** (`SessionManager`). Each worker thread gets one session from a
  table. A background cleaner sweeps the table and closes the sessions of workers that
  are no longer alive. `close` stops the cleaner, closes every session, then closes
  the factory.
- **Store facade** (`HibernateDB`):
  - a builder that checks credentials and produces the Hibernate configuration;
  - the rule that picks the index column from the class of a key, with its three
    key-type exceptions;
  - single and list reads, full scans, single and list deletes, single and batch
    stores;
  - the completeness marker that `checkHasAll` reads back;
  - the transactional helpers that merge or delete through a session, flushing and
    clearing once the session manages too many entities.
- **Completeness marker** (`HasAllStatus`): a value object with a null-safe `equals`,
  a `hashCode` in 32-bit `int` arithmetic, getters, setters and `toString`.

Files:

- `wrappers.dfy`: `Option` and `Result`.
- `java_lang.dfy` (module `JavaLang`): class objects identified by name, Java `int`
  wrap-around, `Boolean.toString`.
- `has_all_status.dfy` (module `HasAll`): the marker class and its `equals`/`hashCode`
  lemmas.
- `session_manager.dfy` (module `Sessions`): the registry as a value, the sweep, the
  cleaner thread as a step machine, and the `SessionManager` class.
- `persistence.dfy` (module `Persistence`): the stand-in for the database and for
  Hibernate. The table is a sequence of rows with identities. Queries are equality
  restrictions, and `uniqueResult` fails on more than one match. A session context
  holds the managed identities and the unflushed and flushed writes; `merge`,
  `delete`, `flush`, `clear` and `commit` act on it.
- `hibernate_db.dfy` (module `HibernateStore`): the key rules, the read and marker
  functions, the builder, the cursor, the session call log, the transaction loops
  and the `HibernateDB` class.

How the model is built:

- **Threads.** Worker threads are identities. Liveness (`Thread.isAlive`) is an input
  set. `Thread.currentThread()` is a `worker` parameter. The cleaner thread is
  `CleanerStep`, one step of its loop at a time; the timer is an input that says
  whether the sleep has expired.
- **Reflection.** The dto instance's answer to `getDataStoreIndexField` and the
  first declared constructor of an object class are both supplied as a `Reflection`
  value. A constructor that fails yields `None`.
- **Exceptions.** Every exception the core raises or lets through is a `StoreError`
  in a `Result`. An empty key or object list gives `IndexOutOfBounds`, as `get(0)`
  does. A query whose restriction matches several rows gives `NonUniqueResult`. Use
  after `close` gives `ClosedSession`.
- **Session calls.** Each method that writes returns, as a ghost value, the calls it
  made on its session (begin, merge, delete, flush, clear, commit). The store keeps
  all of them in order. This is what "one transaction, committed once, every clear
  straight after a flush" is stated about.

- **Managed entities.** The store keeps, per session, the identities of the entities
  the session manages; their number is what `getStatistics().getEntityCount()` reads.
  Every method that takes a session states what each session manages afterwards, and
  what the session registry is afterwards.

Details of the code that the model keeps:

- `build` sets eight `hibernate.*` properties, `hibernate.hbm2ddl.auto` among them.
- The cleaner's interval is the fixed `CHECK_MILLIS` (10000); the builder does not set it.
- `close` does not empty the session table.
- A scan stops at the first row that cannot be loaded and leaves its cursor open.

## Model

| member | source | states |
|---|---|---|
| HasAll.HasAllStatus.constructor | src/com/robrua/orianna/store/HasAllStatus.java:10-12 | a new marker has a null class and the flag false |
| HasAll.HasAllStatus.Equals | src/com/robrua/orianna/store/HasAllStatus.java:19-42 | true exactly when the argument is a non-null marker with the same (null-safe) class and the same flag |
| HasAll.EqualsReflexive | src/com/robrua/orianna/store/HasAllStatus.java:20-22 | every marker equals itself |
| HasAll.EqualsSymmetric | src/com/robrua/orianna/store/HasAllStatus.java:19-42 | a.equals(b) exactly when b is a marker and b.equals(a) |
| HasAll.EqualsTransitive | src/com/robrua/orianna/store/HasAllStatus.java:19-42 | equal to an equal marker implies equal |
| HasAll.EqualsIsRecordEquality | src/com/robrua/orianna/store/HasAllStatus.java:29-41 | two markers are equal exactly when their (class, flag) records are equal |
| HasAll.HasAllStatus.HashCode | src/com/robrua/orianna/store/HasAllStatus.java:56-62 | the result is congruent modulo 2^32 to 31·(31 + h(class)) + (1231 or 1237), with h(null) = 0 |
| HasAll.HashStep | src/com/robrua/orianna/store/HasAllStatus.java:59-60 | one `31 * result + x` step in wrapping `int` arithmetic keeps the congruence with the exact value |
| HasAll.EqualsConsistentWithHashCode | src/com/robrua/orianna/store/HasAllStatus.java:19-62 | equal markers have equal hash codes, for every `Class.hashCode` |
| HasAll.HashCodeSeparatesFlag | src/com/robrua/orianna/store/HasAllStatus.java:60 | for the same class, the two flag values give different hash codes |
| HasAll.HasAllStatus.SetClazz | src/com/robrua/orianna/store/HasAllStatus.java:47-77 | the class getter then returns the value set, and the flag is unchanged |
| HasAll.HasAllStatus.SetHasAll | src/com/robrua/orianna/store/HasAllStatus.java:67-85 | the flag getter then returns the value set, and the class is unchanged |
| HasAll.HasAllStatus.GetClazz | src/com/robrua/orianna/store/HasAllStatus.java:47-49 | the class of the record the marker stores |
| HasAll.HasAllStatus.IsHasAll | src/com/robrua/orianna/store/HasAllStatus.java:67-69 | the flag of the record the marker stores |
| HasAll.HasAllStatus.ToString | src/com/robrua/orianna/store/HasAllStatus.java:92-94 | for a non-null class: the class name, then ": ", then "true" exactly when the flag is set and "false" exactly when it is not |
| JavaLang.Wrap | src/com/robrua/orianna/store/HasAllStatus.java:59-60 | the `int` kept of an exact result is congruent to it modulo 2^32, and equal to it when it is in range |
| JavaLang.CongruentInt32Equal | src/com/robrua/orianna/store/HasAllStatus.java:56-62 | two `int`s congruent modulo 2^32 are equal |
| Sessions.Acquire | src/com/robrua/orianna/store/SessionManager.java:87-96 | a registered worker gets its session and nothing changes; an unregistered one gets a fresh session, only its own entry is added and the counter advances by one; well-formedness is kept |
| Sessions.AcquireAllHandsOutRegistered | src/com/robrua/orianna/store/SessionManager.java:87-96 | after any sequence of calls every caller was handed the session the final table holds for it, and earlier entries are kept |
| Sessions.SameSessionIffSameWorker | src/com/robrua/orianna/store/SessionManager.java:89-92 | two calls are handed the same session exactly when they come from the same worker |
| Sessions.SessionManager.constructor | src/com/robrua/orianna/store/SessionManager.java:67-73 | an empty table, an open factory, nothing released, and a cleaner at its flag check |
| Sessions.SessionManager.OpenSession | src/com/robrua/orianna/store/SessionManager.java:91 | an open factory hands out the next numbered session; a closed one fails and opens nothing |
| Sessions.SessionManager.GetSession | src/com/robrua/orianna/store/SessionManager.java:87-96 | get-or-create, exactly as `Acquire`; when the factory is closed, only an already registered worker succeeds, and nothing changes |
| Sessions.SweepSteps | src/com/robrua/orianna/store/SessionManager.java:30-33 | looking at one more worker keeps the sweep invariant: a dead worker's session is closed and its entry removed, a live worker is left alone |
| Sessions.SessionManager.Sweep | src/com/robrua/orianna/store/SessionManager.java:29-34 | the new table is the entries of live workers; the log gains one close per dead worker's session and nothing else; the registry invariant is kept |
| Sessions.SweepTouchesOnlyDead | src/com/robrua/orianna/store/SessionManager.java:29-34 | an entry survives a sweep exactly when its worker is alive, with the same session |
| Sessions.SweepIdempotent | src/com/robrua/orianna/store/SessionManager.java:29-34 | after a sweep every worker left is alive, and a second sweep with the same liveness removes and closes nothing |
| Sessions.SweepSparesLiveSessions | src/com/robrua/orianna/store/SessionManager.java:29-34 | a live worker's session is never among those a sweep closes |
| Sessions.SweepKeepsConsistent | src/com/robrua/orianna/store/SessionManager.java:29-34 | a sweep keeps the invariant that no closed session is still handed out |
| Sessions.SessionManager.StopCleaner | src/com/robrua/orianna/store/SessionManager.java:48-51 | sets the stop flag and the interrupt, and records that the cleaner was stopped |
| Sessions.CleanerStop | src/com/robrua/orianna/store/SessionManager.java:48-51 | sets the flag and the interrupt without moving the thread, so a sleeping cleaner wakes at its next step whatever the timer says |
| Sessions.StopTakesEffect | src/com/robrua/orianna/store/SessionManager.java:48-51 | right after `stop`, a stop is in effect whatever the cleaner was doing |
| Sessions.SessionManager.CleanerStep | src/com/robrua/orianna/store/SessionManager.java:28-42 | one step of the cleaner loop; only the sweeping step changes the table, with the effect of a sweep |
| Sessions.CleanerNext | src/com/robrua/orianna/store/SessionManager.java:28-42 | the flag never changes by a step; an exited thread stays so; the thread exits only from a flag check that finds the flag set, and begins a sweep only from one that finds it clear; a sleep returns to the flag check exactly on an interrupt or an expired timer, and an interrupt is consumed |
| Sessions.InterruptedSleepChecksFlag | src/com/robrua/orianna/store/SessionManager.java:36-41 | an interrupted sleep returns to the flag check, whatever the timer says |
| Sessions.StoppedBeginsNoSweep | src/com/robrua/orianna/store/SessionManager.java:28-41 | once the flag is set, no new sweep begins, however the steps are scheduled |
| Sessions.StoppedCompletesAtMostCurrentSweep | src/com/robrua/orianna/store/SessionManager.java:28-41 | once the flag is set, at most the sweep already in progress completes |
| Sessions.StoppedCleanerExits | src/com/robrua/orianna/store/SessionManager.java:28-51 | once a stop is in effect, the cleaner leaves its loop within three steps |
| Sessions.ClosingSteps | src/com/robrua/orianna/store/SessionManager.java:78-80 | closing one more registered session keeps the invariant of the closing loop |
| Sessions.SessionManager.Close | src/com/robrua/orianna/store/SessionManager.java:76-82 | releases the cleaner first, every registered session once, and the factory last; the cleaner is stopped and the factory closed |
| Sessions.ClosingKeepsConsistent | src/com/robrua/orianna/store/SessionManager.java:76-82 | after `close`, every registered session is closed and the registry is still well formed |
| HibernateStore.Builder.constructor | src/com/robrua/orianna/store/HibernateDB.java:35-43 | defaults `update`, `none`, the MySQL dialect and driver, threshold 100, no SQL echo, no URL, user name or password |
| HibernateStore.Builder.AutoSchema | src/com/robrua/orianna/store/HibernateDB.java:55-58 | sets its own field, nothing else, and returns the builder |
| HibernateStore.Builder.CacheProvider | src/com/robrua/orianna/store/HibernateDB.java:88-91 | sets its own field, nothing else, and returns the builder |
| HibernateStore.Builder.Dialect | src/com/robrua/orianna/store/HibernateDB.java:99-102 | sets its own field, nothing else, and returns the builder |
| HibernateStore.Builder.Driver | src/com/robrua/orianna/store/HibernateDB.java:110-113 | sets its own field, nothing else, and returns the builder |
| HibernateStore.Builder.EntityClearThreshold | src/com/robrua/orianna/store/HibernateDB.java:123-126 | sets its own field, nothing else, and returns the builder |
| HibernateStore.Builder.Password | src/com/robrua/orianna/store/HibernateDB.java:133-136 | sets its own field, nothing else, and returns the builder |
| HibernateStore.Builder.ShowSQL | src/com/robrua/orianna/store/HibernateDB.java:143-146 | sets its own field, nothing else, and returns the builder |
| HibernateStore.Builder.URL | src/com/robrua/orianna/store/HibernateDB.java:153-156 | sets its own field, nothing else, and returns the builder |
| HibernateStore.Builder.Username | src/com/robrua/orianna/store/HibernateDB.java:163-166 | sets its own field, nothing else, and returns the builder |
| HibernateStore.Builder.Configure | src/com/robrua/orianna/store/HibernateDB.java:63-77 | fails with the credentials message exactly when the URL, user name or password is unset; otherwise exactly the eight `hibernate.*` properties from the fields, with `show_sql` "true" or "false" |
| HibernateStore.Builder.Build | src/com/robrua/orianna/store/HibernateDB.java:63-80 | fails exactly when `Configure` does; otherwise a new valid store over that configuration and the builder's threshold |
| HibernateStore.HibernateDB.constructor | src/com/robrua/orianna/store/HibernateDB.java:254-332 | the configuration and threshold kept, a new session manager with an open factory and an empty table, checking every `CHECK_MILLIS` |
| HibernateStore.KeyTypeError | src/com/robrua/orianna/store/HibernateDB.java:445-456 | the "Try using an Integer" message exactly for `Long` keys, "Try using a Long" exactly for `Integer` keys, "Invalid key type" exactly for the rest |
| HibernateStore.IndexColumn | src/com/robrua/orianna/store/HibernateDB.java:445-456 | fails exactly when the dto has no column for the key's class, with the key-type exception; else that column |
| HibernateStore.IndexColumnDependsOnlyOnKeyClass | src/com/robrua/orianna/store/HibernateDB.java:233-236 | keys of the same class get the same column or the same exception |
| HibernateStore.Lookup | src/com/robrua/orianna/store/HibernateDB.java:565-570 | none exactly when no row matches; the one matching row when exactly one matches (that row of the table); the non-unique error exactly when two or more match |
| HibernateStore.Construct | src/com/robrua/orianna/store/HibernateDB.java:458-468 | null exactly when no row was found; the constructor's object when it succeeds; the load exception exactly when it fails |
| HibernateStore.LoadSlot | src/com/robrua/orianna/store/HibernateDB.java:458-468 | null exactly when no row matches the key; for exactly one match, what the constructor makes of that row; the non-unique error exactly when two or more match; else the load exception |
| HibernateStore.ListReadSucceeds | src/com/robrua/orianna/store/HibernateDB.java:422-433 | when every key loads, the result has one slot per key, slot i being key i's read |
| HibernateStore.ListReadFails | src/com/robrua/orianna/store/HibernateDB.java:422-437 | a list read fails with the error of the first key that fails |
| HibernateStore.LoadAll | src/com/robrua/orianna/store/HibernateDB.java:481-491 | succeeds exactly when every row can be made into an object; then one object per row, in order; else the load exception |
| HibernateStore.HasAllOf | src/com/robrua/orianna/store/HibernateDB.java:340-347 | false when no marker row exists for the class; true only if the full-set marker for the class is in the table |
| HibernateStore.StatusFlag | src/com/robrua/orianna/store/HibernateDB.java:342-346 | true exactly for a marker whose flag is set; false for no row |
| HibernateStore.StoreBatch | src/com/robrua/orianna/store/HibernateDB.java:511-521 | the batch holds the marker for the first object's class exactly for a full set, every object's dto, and nothing else |
| HibernateStore.FullSetStoreThenHasAll | src/com/robrua/orianna/store/HibernateDB.java:508-524 | merging a full-set batch, in any order, makes `checkHasAll` for the first object's class true |
| HibernateStore.PartialStoreKeepsHasAll | src/com/robrua/orianna/store/HibernateDB.java:508-524 | merging a batch without a marker leaves `checkHasAll` unchanged for every class |
| HibernateStore.FoundRowsFromKeys | src/com/robrua/orianna/store/HibernateDB.java:371-377 | every row collected by a list delete is the row one of the keys finds |
| HibernateStore.FoundRowsHaveKeys | src/com/robrua/orianna/store/HibernateDB.java:371-377 | the row any key finds is among those collected |
| HibernateStore.DeleteFoundRows | src/com/robrua/orianna/store/HibernateDB.java:546-553 | deleting the collected rows, in any order, removes exactly their identities and keeps every other row |
| HibernateStore.DeleteThenGetFindsNothing | src/com/robrua/orianna/store/HibernateDB.java:398-401 | after deleting the row a key finds, reading that key gives null |
| HibernateStore.StoreThenGetFindsIt | src/com/robrua/orianna/store/HibernateDB.java:527-529 | after storing a dto, reading it by its index value finds it, if no other row holds that value |
| HibernateStore.Begin | src/com/robrua/orianna/store/HibernateDB.java:588 | `beginTransaction` opens a transaction that has merged and deleted nothing |
| HibernateStore.Continue | src/com/robrua/orianna/store/HibernateDB.java:589-593 | a merge, delete, flush or clear keeps the transaction open and adds what it merged or deleted |
| HibernateStore.FlushAndClear | src/com/robrua/orianna/store/HibernateDB.java:609-610 | a flush then a clear keeps the transaction open, merges nothing and puts the clear straight after the flush |
| HibernateStore.CommitEndsSave | src/com/robrua/orianna/store/HibernateDB.java:613 | committing an open transaction gives exactly one transaction, committed once at its end |
| HibernateStore.CommitEndsDelete | src/com/robrua/orianna/store/HibernateDB.java:552 | committing an open delete transaction gives exactly one transaction, committed once |
| HibernateStore.MergeStep | src/com/robrua/orianna/store/HibernateDB.java:606-611 | one merge, with a flush and clear at the threshold, keeps the pending writes, the open transaction and the managed count below the threshold |
| HibernateStore.MergeOne | src/com/robrua/orianna/store/HibernateDB.java:588-594 | one pending merge; the session is cleared exactly when it reaches the threshold, so it then manages fewer than the threshold |
| HibernateStore.Enumerate | src/com/robrua/orianna/store/HibernateDB.java:605 | a set's iteration visits each element exactly once |
| HibernateStore.MergeAll | src/com/robrua/orianna/store/HibernateDB.java:605-612 | the pending writes are the merges of the items in order; the session manages what `ManagedAfterMerges` gives (each merge adds its entity, a clear at the threshold empties the set); the calls are one open transaction with every clear after a flush; the managed count ends below the threshold |
| HibernateStore.DeleteStep | src/com/robrua/orianna/store/HibernateDB.java:550 | one delete adds its removal, unmanages the entity and keeps the transaction open |
| HibernateStore.DeleteAllOf | src/com/robrua/orianna/store/HibernateDB.java:549-551 | the pending writes are the deletes of the items in order; none of them is managed; the calls are one open transaction |
| HibernateStore.HibernateDB.AcquireSession | src/com/robrua/orianna/store/HibernateDB.java:566 | succeeds exactly while the factory is open, handing out `Acquire`'s session for the worker; the registry afterwards is `Acquire`'s for the worker while the factory is open, and unchanged when it is closed |
| HibernateStore.HibernateDB.HibernateGet | src/com/robrua/orianna/store/HibernateDB.java:565-570 | with the factory open, the lookup of the restriction on the table, and the worker's session then also manages the row found (no session's set changes when none is found); closed, the closed-session error and no change; the registry afterwards is `Acquire`'s for the worker while the factory is open, and unchanged when it is closed |
| HibernateStore.HibernateDB.HibernateGetAll | src/com/robrua/orianna/store/HibernateDB.java:577-580 | with the factory open, a new cursor before the first row of the class, in table order; the registry afterwards is `Acquire`'s for the worker while the factory is open, and unchanged when it is closed |
| HibernateStore.HibernateDB.HibernateSave | src/com/robrua/orianna/store/HibernateDB.java:586-596 | the table after is the merge of the entity; one transaction, committed once; the worker's session manages what the merge leaves it (`ManagedAfterMerges`), below the threshold, and no other session's set changes; the registry afterwards is `Acquire`'s for the worker while the factory is open, and unchanged when it is closed |
| HibernateStore.HibernateDB.HibernateSaveAll | src/com/robrua/orianna/store/HibernateDB.java:602-614 | every item merged once, in iteration order, in one transaction committed once after all merges, every clear after a flush; the worker's session manages what the merges leave it (`ManagedAfterMerges`), below the threshold, and no other session's set changes; the registry afterwards is `Acquire`'s for the worker while the factory is open, and unchanged when it is closed |
| HibernateStore.HibernateDB.HibernateDelete | src/com/robrua/orianna/store/HibernateDB.java:535-540 | the table after is without the entity's identity; one transaction, committed once; the worker's session no longer manages that identity and no other session's set changes; the registry afterwards is `Acquire`'s for the worker while the factory is open, and unchanged when it is closed |
| HibernateStore.HibernateDB.HibernateDeleteAll | src/com/robrua/orianna/store/HibernateDB.java:546-553 | every item deleted once, in iteration order, in one transaction committed once; the worker's session no longer manages the items and no other session's set changes; the registry afterwards is `Acquire`'s for the worker while the factory is open, and unchanged when it is closed |
| HibernateStore.HibernateDB.CheckHasAll | src/com/robrua/orianna/store/HibernateDB.java:340-347 | the flag of the class's marker, false when there is none; the worker's session then also manages the marker found; the registry afterwards is `Acquire`'s for the worker while the factory is open, and unchanged when it is closed |
| HibernateStore.HibernateDB.LoadKey | src/com/robrua/orianna/store/HibernateDB.java:458-468 | the read of one key in a known column, as `LoadSlot`; the worker's session then also manages the row found, whether or not it loads; the registry afterwards is `Acquire`'s for the worker while the factory is open, and unchanged when it is closed |
| HibernateStore.HibernateDB.DoGet | src/com/robrua/orianna/store/HibernateDB.java:442-469 | the key-type exception before any query and with nothing changed; else the read of the key, null when nothing matches, and the worker's session then also manages the row found; the registry afterwards is `Acquire`'s for the worker while the factory is open, and unchanged when it is closed |
| HibernateStore.HibernateDB.DoGetList | src/com/robrua/orianna/store/HibernateDB.java:406-438 | the column comes from the first key's class; the key-type exception before any query; else one slot per key, null exactly where nothing matches, or the first failing key's error; after a full read the worker's session also manages every row the keys found; the registry afterwards is `Acquire`'s for the worker while the factory is open, and unchanged when it is closed |
| HibernateStore.HibernateDB.DoGetAll | src/com/robrua/orianna/store/HibernateDB.java:473-492 | one object per row of the dto class, in cursor order, and the cursor closed exactly when all loaded; else the load exception; the registry afterwards is `Acquire`'s for the worker while the factory is open, and unchanged when it is closed |
| HibernateStore.Cursor.Next | src/com/robrua/orianna/store/HibernateDB.java:483 | `next` moves onto the next row exactly when there is one |
| HibernateStore.Cursor.constructor | src/com/robrua/orianna/store/HibernateDB.java:579 | `scroll` gives a cursor over the rows before the first of them, open |
| HibernateStore.Cursor.Get | src/com/robrua/orianna/store/HibernateDB.java:484 | `get(0)` is the current row, the last one `next` stepped onto |
| HibernateStore.Cursor.Close | src/com/robrua/orianna/store/HibernateDB.java:486 | `close` closes the cursor and nothing else |
| HibernateStore.HibernateDB.DoStore | src/com/robrua/orianna/store/HibernateDB.java:527-529 | the table after is the merge of the object's dto, with the managed sets and registry as `HibernateSave` leaves them |
| HibernateStore.HibernateDB.DoStoreList | src/com/robrua/orianna/store/HibernateDB.java:508-524 | merges exactly the batch; after a full set `checkHasAll` for the first object's class is true; otherwise every class's `checkHasAll` is unchanged; the managed sets and registry as `HibernateSaveAll` leaves them |
| HibernateStore.HibernateDB.DoDelete | src/com/robrua/orianna/store/HibernateDB.java:382-402 | the key-type exception before any query; a key that finds nothing deletes nothing and succeeds; a row found is deleted and the worker's session no longer manages it, no other session's set changing; the registry afterwards is `Acquire`'s for the worker while the factory is open, and unchanged when it is closed |
| HibernateStore.HibernateDB.FindKey | src/com/robrua/orianna/store/HibernateDB.java:373-376 | the row one key finds, as a set, or the non-unique error; the worker's session then also manages the row found; the registry afterwards is `Acquire`'s for the worker while the factory is open, and unchanged when it is closed |
| HibernateStore.HibernateDB.FindRows | src/com/robrua/orianna/store/HibernateDB.java:371-377 | succeeds exactly when every key's lookup does, with the set of rows the keys find, which the worker's session then also manages; the registry afterwards is `Acquire`'s for the worker while the factory is open, and unchanged when it is closed |
| HibernateStore.HibernateDB.DoDeleteList | src/com/robrua/orianna/store/HibernateDB.java:355-379 | the column comes from the first key's class; the key-type exception before any query; else exactly the identities of the rows found are gone, every other row is kept, and the worker's session no longer manages the rows found; the registry afterwards is `Acquire`'s for the worker while the factory is open, and unchanged when it is closed |
| HibernateStore.HibernateDB.Close | src/com/robrua/orianna/store/HibernateDB.java:349-352 | the session manager's `close`: cleaner, then sessions, then factory |
| Persistence.UniqueResult | src/com/robrua/orianna/store/HibernateDB.java:569 | none exactly when no row matches; the one matching row when exactly one matches; the error exactly when two or more match |
| Persistence.Matching | src/com/robrua/orianna/store/HibernateDB.java:567-568 | exactly the rows of the class whose column holds the value |
| Persistence.RowsOf | src/com/robrua/orianna/store/HibernateDB.java:579 | the rows of the class and no others |
| Persistence.RowsOfCounts | src/com/robrua/orianna/store/HibernateDB.java:579 | each row of the class is returned as often as the table holds it, any other row never |
| Persistence.RowsOfAppend | src/com/robrua/orianna/store/HibernateDB.java:579 | the rows of a concatenation are the rows of its first part followed by those of its second: table order is kept |
| Persistence.RowsOfSingle | src/com/robrua/orianna/store/HibernateDB.java:579 | a single row is returned exactly when it has the class |
| Persistence.PutKeepsUniqueIds | src/com/robrua/orianna/store/HibernateDB.java:589 | a merge keeps identities unique |
| Persistence.RemoveIdKeepsUniqueIds | src/com/robrua/orianna/store/HibernateDB.java:538 | a delete keeps identities unique and removes exactly the rows with that identity |
| Persistence.FindPut | src/com/robrua/orianna/store/HibernateDB.java:589 | after a merge the entity's identity finds the entity; other identities are found as before |
| Persistence.FindRemoveId | src/com/robrua/orianna/store/HibernateDB.java:538 | after a delete the identity finds nothing; other identities are found as before |
| Persistence.FindAfterMerges | src/com/robrua/orianna/store/HibernateDB.java:605-613 | after merges in order, each identity finds the last entity merged with it, or its old row |
| Persistence.FindAfterRemoves | src/com/robrua/orianna/store/HibernateDB.java:549-552 | after deletes in order, exactly the deleted identities find nothing |
| Persistence.QueryFindsPut | src/com/robrua/orianna/store/HibernateDB.java:568-569 | after merging a dto, a query on one of its columns returns it, if no other row holds that value |
| Persistence.MatchingAfterMergesOfOtherClass | src/com/robrua/orianna/store/HibernateDB.java:341 | merges of rows of other classes do not change a marker query |
| Persistence.MergeInto | src/com/robrua/orianna/store/HibernateDB.java:589 | `merge` manages the entity and adds one pending merge |
| Persistence.DeleteFrom | src/com/robrua/orianna/store/HibernateDB.java:538 | `delete` unmanages the entity and adds one pending delete |
| Persistence.Flush | src/com/robrua/orianna/store/HibernateDB.java:592 | `flush` keeps every pending write and the managed set |
| Persistence.Clear | src/com/robrua/orianna/store/HibernateDB.java:593 | `clear` empties the managed set and drops unflushed writes |
| Persistence.FlushThenClearKeepsWrites | src/com/robrua/orianna/store/HibernateDB.java:591-594 | a flush before the clear loses no write; a clear alone would lose the unflushed ones |
| Persistence.Commit | src/com/robrua/orianna/store/HibernateDB.java:595 | `commit` leaves nothing pending, ends the transaction and keeps the managed set |
| Persistence.CommitOfMerges | src/com/robrua/orianna/store/HibernateDB.java:613 | a commit of merges leaves each identity finding the last entity merged with it, or its old row |
| Persistence.CommitOfRemoves | src/com/robrua/orianna/store/HibernateDB.java:552 | a commit of deletes leaves exactly the deleted identities finding nothing, every other identity as before |

## Left out

- Threads run sequentially. Neither `ConcurrentHashMap`'s atomicity nor the race between the cleaner and `getSession` is modelled, because they belong to the Java runtime.
- `Thread.sleep` timing and `CHECK_MILLIS` as a duration are not modelled. Time is an input saying whether the sleep timer expired.
- `Thread.isAlive` is not modelled. Liveness is an input set.
- The Hibernate configuration object, the registration of the annotated dto classes, the service registry and the factory build are not modelled, because they are library plumbing. The configuration is a map of properties.
- Criteria queries, `ScrollableResults` and `Statistics` are modelled only as the abstract table, cursor and managed set of the Persistence module.
- `getDtoClass` is not modelled, because it reads generic type arguments by reflection. Operations take the dto class as a parameter.
- `getIndexRow` is a supplied function. Its "Couldn't instantiate dto" exception is not modelled.
- `doGetIterator` and `DBIterator` (including `hasNext` through `isLast`) are not modelled, because `isLast`'s behaviour on a cursor is not part of the code shown.
- HibernateStore.HibernateDB.DoGetAll: does not model the branch that returns an empty list when `scroll` returns null, because the model's cursor never does.
- HibernateStore.HibernateDB.DoStore and HibernateStore.HibernateDB.DoStoreList: do not take the `key`/`keys` parameters, which the code never uses.
- HibernateStore.Builder.AutoSchema: null is not modelled for the string setters other than the URL, user name and password; `Boolean.toString` and `setProperty` never see a null there in the model.
- HibernateStore.HibernateDB.DoGet: null keys are not modelled (the base class decides them through `allowsNullStoreKeys`, which is not part of this model).
- HibernateStore.HibernateDB.HibernateGetAll: the rows a cursor loads do not count as managed by the session.
- Storage failures, rollback and transaction isolation are not modelled. A commit applies its writes as one step.
- `Class.getName` is a class's name, and classes are identified by it. `Class.hashCode` is a parameter the hash lemmas range over.
- `allowsNullStoreKeys` is not modelled, because it is a constant answer to the base class.
- The iteration order of a `HashSet` is not fixed. `Enumerate` picks an arbitrary order, and properties are proved for every order.
- HibernateStore.HibernateDB.HibernateSave: the managed count is bounded only for a threshold of at least 1, the case the source's `>=` test is meant for.
- `Cleaner.stop` before `run` has recorded its thread dereferences a null thread, and `stop` does not wait for a sweep in progress, which may still close sessions while `close` closes them; both depend on real thread scheduling, which is not modelled.
- HibernateStore.HibernateDB.DoGetList: after a key that fails, what the worker's session manages is not stated; it holds the rows the keys before it found, plus the failing key's row when that key failed to load rather than to look up.
- HibernateStore.HibernateDB.FindRows: after a lookup that fails, what the worker's session manages is not stated; it holds the rows the keys before it found.
- HibernateStore.HibernateDB.DoDeleteList: after a lookup that fails, what the worker's session manages is not stated, as for `FindRows`.
