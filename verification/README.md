# Karapace schema registry: a verified model

The project models the core of the Karapace schema registry in Dafny and proves what its parts promise together.

* **Registry and topic.** A database folded from the `_schemas` topic, the registrations and deletes of the acting
  master, and the records they send: `SchemaModels`, `Database`, `SchemaReader`, `SchemaRegistry` (values and functions),
  `DatabaseStore`, `RegistryService` (the objects, method by method against those functions), `RegistryInvariant`,
  `RegistryRuns`, `RegistryTheorems`, `RegistryOutcomes`, `References`, `LiveReferences`, `Compatibility`, `Compaction`,
  `SharedIds`, `Configuration`, `RegistryLaws`, and `SendOutcomes`, which ties the answers to the offset watcher. `RegistryScenarios` and `FailingRuns` replay concrete runs.
* **Mastership.** Election, the waiting time and the handover, as a timed transition system of any number of nodes over
  one topic: `Election`, `Mastership`, `Coordination`, `Cluster`, `ClusterTiming`, `ClusterProgress`,
  `ClusterFence`, `ClusterIds`, `SchemaTypes`. Its main result is the purpose stated in the coordinator: no two schemas get the same id.
* **Reading one's own writes.** The reader's loop with its error paths and the offset watcher: `ReadYourWrites`.
* **Protobuf comparison.** Type tables, locks, path stack and modifications: `ProtobufModel`, `ProtobufCompare` (functions),
  `ProtobufComparison` (the objects), `ProtobufTables`, `ProtobufReflexive`, `ProtobufDependencies`, `ProtobufVerdict`,
  `ProtobufExact`, `ProtobufChains`, `ProtobufWire`, `ProtobufReports`.
* **Avro data.** `AvroResolve` with `AvroOrder`, and `FlattenUnions` with `AvroWrite`.

`Dicts` has dictionaries with insertion order, `JsonValues` JSON values, `Text` numbers and dotted names as text.

A *registry-written log* is one in which each record is of a kind that a registry holding exactly the records before it may
send. `RegistryRuns.PlanLegit` shows that every operation sends only such records.

## What does not hold

Some claims one would expect are false of the code. Each has a concrete run or input that shows it and a condition under which
it holds, exact unless said otherwise.

* The fingerprint lookup can miss a live version (`IndexLosesLiveVersion`, `IndexCompleteIff`).
* The referenced-by sets can miss a live referrer (`ReferentLost`, `ReferentsCompleteIff`).
* A live version can reference one that is soft-deleted (`ReferenceCutOff`, `ResolvableKeptIff`).
* A live version that nothing references cannot always be soft-deleted: the send times out (`SoftDeleteFails`,
  `SoftDeleteFailsIff`).
* With references, a reader of the compacted topic can lose versions (`CompactedVersionLost`, `DiffersOnlyByRefusal`,
  `DiffersIff`, `CompleteCompactionIff`).
* The schema cache ignores the schema type, so a schema can be stored under another type (`TypesMix`,
  `AllCarriedIff`). Equal ids still mean equal text and references.
* A send can return before its record is handled, when an exception drops the record from its batch (`RecordCanBeMissed`,
  `RaisedHidesRecord`, `SendReturnsHandledIff`).
* The docstring of `avro_resolve` says that referenced schemas come first (`OrderCanFail`, `ReferencedFirstIff`).
* `flatten_unions` does not leave alone what is already flat (`UntaggedFieldDamaged`, `FlattenIdentityIff`). A value that is
  flat altogether is written as it is all the same, since it validates (`PlainWritten`), but a tagged one may keep its tags
  (`TagCanBeKept`, `TagsKeptIff`).
* In the protobuf comparison the types of dependencies can stay unseen, on either side, so that a breaking change in one
  goes unreported (`BreakCanBeHidden`, `AllEnteredIff`).
* There a file may differ from itself (`FileCanDifferFromItself`, `SelfComparisonSilentIff`).

Not a contradiction of any promise, but to be known: in the protobuf comparison a field that changes to a declared message of
another name is compatible whatever that message holds (`NamedTypeVerdict`).

## Hypotheses

* Digests have no collisions: a fingerprint is the text and references it is computed from. Schema text is normalised
  already. An absent and an empty reference list are the same.
* The verdict of a format's compatibility checker is a function of two schemas, given as a parameter.
* The API hands over schemas whose references are resolved to versions, and none for JSON schema; others are refused.
* An operation runs from its checks to its last record without another in between, and each record it sends is handled by
  the node's own reader before the next or, if that refuses it, the send times out. In strict mode the reader shuts the node
  down at a refused record; the loop has that, the runs of requests go on only where it does not. The cluster model allows
  any number of a node's own records in flight.
* Cluster: one clock; a generation change is one step for all members; a node outside the new generation is not flagged
  master; `are_we_master` and `_on_join_complete` are each one step; a record reaches the log within the waiting time; a node
  is one process from start to end. Enabling conditions in `Cluster.Enabled` say exactly this; there is no other.
* Offsets of delivered messages rise. `handle_msg` is a function of state, key and value, given as a parameter of the loop; it
  may change the state before it raises.
* Avro: `avro.io.validate` is the recursive check of the Avro library: some branch of a union, every item and entry, every field
  of a record, a missing one counting as null, and no other key. What it says of strings, numbers, booleans and null where a
  primitive, enum or fixed type is expected is a parameter. No union is directly inside a union.
* Protobuf: `==` on messages is an integer identity, possibly shared by different messages. `FileVerdict` assumes that declared
  names are identifiers other than the scalar type names, and both it and `SelfComparisonSilentIff` that no message equals one
  that encloses it, which holds because equality compares nested types. The iteration order of `other.keys() - self.keys()`, a
  set, is fixed to that of the other side.

## Model

| member | source | states |
|---|---|---|
| `RegistryInvariant.ApplyKeepsInv` | src/karapace/core/schema_reader.py:641-746 | Every record a registry may write keeps, together: version dicts in strictly ascending order under their own positive numbers, one schema object per fingerprint shared by ids and versions, every fingerprint entry backed by a live version, every recorded referent backed by a stored version that references it |
| `RegistryInvariant.ReplayInv` | src/karapace/core/in_memory_database.py:134-400 | That invariant holds of the database reached by every registry-written log |
| `RegistryInvariant.InsertKeepsIndex` | src/karapace/core/in_memory_database.py:213-260 | An insert that repeats or opens a version leaves no fingerprint entry without a live version of that text and id, soft deletes included |
| `RegistryInvariant.DeleteSubjectKeepsIndex` | src/karapace/core/in_memory_database.py:342-347 | After a soft subject delete no fingerprint entry points at a version that is no longer live |
| `RegistryInvariant.HardDeleteKeepsReferents` | src/karapace/core/schema_reader.py:627-639 | A hard delete leaves only referents that some remaining version justifies |
| `RegistryRuns.PlanLegit` | src/karapace/core/schema_registry.py:145-393 | Every record any operation sends is legitimate when it is sent, all tombstones of a permanent subject delete included, each judged after the ones before it were handled |
| `RegistryRuns.ExecOk` | src/karapace/core/schema_registry.py:145-393 | An operation leaves memory equal to the replay of the topic, the topic registry-written, and the id counter at least every stored id |
| `RegistryRuns.RunOk` | src/karapace/core/schema_registry.py:304-393 | The same after any sequence of requests from an empty topic |
| `RegistryRuns.FindIdSpec` | src/karapace/core/in_memory_database.py:167-171 | The scan returns an id that stores an equal schema, and returns none only when no id does |
| `RegistryTheorems.Lifecycle` | src/karapace/core/schema_registry.py:145-238 | Along every run a (subject, version) goes only absent, live, soft-deleted, absent; while stored its id and schema never change; a tombstone is written only for a soft-deleted version |
| `RegistryTheorems.SoftSubjectDelete` | src/karapace/core/schema_registry.py:186-203 | A soft subject delete answers with exactly the versions that were live, ascending; afterwards none is live, all are still stored, other subjects are untouched |
| `RegistryTheorems.PermanentSubjectDelete` | src/karapace/core/schema_registry.py:166-185 | A permanent subject delete answers with exactly the stored versions, ascending, all of them soft-deleted; afterwards the subject holds none and every other subject is as before |
| `RegistryLaws.SubjectDeleteAnswer` | src/karapace/core/schema_registry.py:145-203 | Along every run a soft delete of a subject succeeds if and only if some version is live and the greatest live one has no recorded referent, a permanent one if and only if some version is stored, none is live and none has a recorded referent; each error is given exactly on its own condition; a failed delete leaves memory and topic as they were |
| `RegistryTheorems.LookupRefinesScan` | src/karapace/core/in_memory_database.py:181-191 | Along every run an id returned by the fingerprint lookup belongs to a live version of that subject with the same text and references |
| `RegistryTheorems.RegisteredIsLive` | src/karapace/core/schema_registry.py:304-393 | After a registration that answers with an id the subject has a live version with that id, text and references |
| `RegistryOutcomes.RegisterRefusedIff` | src/karapace/core/schema_registry.py:304-393 | Along every run the registration of a schema unknown to the subject fails if and only if some version the mode asks for (all live ones if transitive, else the latest live one) is incompatible with it or cannot be resolved any more, or its own references cannot be resolved; in the first case nothing is sent, in the second alone the send times out |
| `RegistryLaws.RefusedByMode` | src/karapace/core/compatibility/schema_compatibility.py:30-127 | Along every run a schema unknown to the subject, readable, and with checked versions that can be resolved, is refused: under BACKWARD if and only if the latest live version has another type or the new schema cannot read it, under FORWARD if it cannot read the new schema, under FULL if either fails, under the transitive modes if that holds of some live version, under NONE never; and only as incompatible |
| `RegistryLaws.WhichRefusal` | src/karapace/core/schema_registry.py:461-495 | Along every run a schema unknown to the subject is refused for unresolvable references if and only if the least checked version that is in the way cannot be resolved, and as incompatible if and only if it can |
| `Configuration.ModeInForce` | src/karapace/core/schema_reader.py:598-612 | Along every run the mode in force for a subject is the one its last configuration record set, unless that was removed or the subject went with its last version, and then the one the last global configuration record set, or the initial one |
| `Configuration.SubjectModeIff` | src/karapace/core/schema_reader.py:598-612 | Along every registry-written log a subject has a mode of its own if and only if a record configured it and no later one configured the subject again or hard-deleted its last version |
| `Configuration.GlobalModeIff` | src/karapace/core/schema_reader.py:598-612 | Along every log the global mode is the one the last global configuration record set, or the initial one if there is none |
| `Configuration.ConfigureTakesEffect` | src/karapace/core/schema_registry.py:441-448 | A configuration request takes effect at once: for its subject, removed for its subject, or globally |
| `RegistryOutcomes.RegisterEffect` | src/karapace/core/schema_registry.py:304-393 | A registration sends at most one record: for the next version above all stored ones, under the id of an equal stored schema or else a new one; sending none it changes nothing; it answers with that id if and only if the version is live afterwards, and otherwise the send times out; no other version changed |
| `RegistryLaws.IdsWithoutGaps` | src/karapace/core/in_memory_database.py:167-179 | Along every run the ids on the topic are exactly the numbers from 1 to the counter: given out one after the other, none skipped, none spent on a request that sends nothing |
| `RegistryOutcomes.VersionDeleteAnswer` | src/karapace/core/schema_registry.py:205-238 | A version delete succeeds if and only if the version it means (the one named, or the greatest candidate for the alias) is live, for a permanent delete soft-deleted, has no recorded referent, and, for a soft delete, references that can be resolved; it answers with that version; a failed one changes nothing in memory, and leaves a record on the topic exactly when it failed because of those references |
| `RegistryLaws.VersionDeleteErrors` | src/karapace/core/schema_registry.py:205-238 | Along every run a version delete gives each of its errors exactly on its own condition: unknown or empty subject, nothing live for the alias, no such version, already soft-deleted, not soft-deleted, referenced |
| `RegistryOutcomes.VersionDeleteEffect` | src/karapace/core/schema_registry.py:205-238 | After a successful one no other version changed and the version is gone (permanent) or soft-deleted |
| `RegistryOutcomes.SoftDeleteFailsIff` | src/karapace/core/messaging.py:94-106 | In every state reached, a soft delete of a live version without recorded referents times out if and only if its references lead to a version that is not live, and exactly then it stays live |
| `SendOutcomes.ReplyFollowsWatcher` | src/karapace/core/messaging.py:94-106 | After any run, a caught-up and ready reader that is delivered the record of the next request ends in the state of the model, and raises the watcher to it exactly when the answer is not that the send timed out |
| `SendOutcomes.SeenIffAccepted` | src/karapace/core/schema_reader.py:521-536 | For any handler, a watched message past everything seen raises the watcher to its offset if and only if the handler accepts it |
| `SharedIds.SoftDeleteCanFail` | src/karapace/core/schema_reader.py:677-683 | A registry-written log after which the reader rejects the record of a soft delete of a live version that nothing references, so that the request times out and the version stays live |
| `FailingRuns.SoftDeleteFails` | src/karapace/core/schema_registry.py:205-238 | The six requests that lead there, and the seventh, which times out and changes nothing in memory |
| `RegistryTheorems.IndexCompleteIff` | src/karapace/core/in_memory_database.py:193-205 | A legitimate record keeps the fingerprint index complete (every live version found) if and only if it does not soft- or hard-delete a version that has a live twin with the same text and references in its subject |
| `RegistryTheorems.IndexCanLoseLiveVersion` | src/karapace/core/in_memory_database.py:357-363 | A registry-written log of four records after which a live version is missing from the fingerprint index |
| `FailingRuns.IndexLosesLiveVersion` | src/karapace/core/schema_registry.py:205-238 | The requests that lead there, under every mode and all checker verdicts: register, soft-delete, register again, hard-delete the first |
| `RegistryTheorems.RefusalHasBlocker` | src/karapace/core/schema_registry.py:226-228 | Along every run a delete refused with ReferenceExists names a stored version with at least one referent, and each named referent is the id of a stored version that references it |
| `RegistryTheorems.ReferentsCompleteIff` | src/karapace/core/in_memory_database.py:383-400 | A legitimate record keeps the referenced-by sets complete for live versions if and only if it is not a hard delete of a version with references whose id a live version still uses |
| `SharedIds.ReferentsCanBeLost` | src/karapace/core/in_memory_database.py:395-400 | A registry-written log after which a live version references a version whose referents are recorded as empty |
| `FailingRuns.ReferentLost` | src/karapace/core/schema_registry.py:205-238 | The five requests that lead there |
| `References.ApplyKeepsAcyclic` | src/karapace/core/schema_reader.py:677-683 | A legitimate record keeps the references among live versions free of cycles |
| `References.LiveReferencesAcyclic` | src/karapace/core/schema_reader.py:755-804 | In every database reached by a registry-written log the reference graph over live versions has no cycle |
| `References.ResolveReference` | src/karapace/core/schema_reader.py:766-790 | The recursion without a cycle check ends, returns what resolution to some depth returns, and fails only when resolution fails to every depth |
| `References.ResolveReferences` | src/karapace/core/schema_reader.py:792-804 | The same for a list of references, with dict assignment by name |
| `References.ResolveInRegistry` | src/karapace/core/schema_reader.py:755-804 | On every registry-written log resolution ends for any list of references, and succeeds exactly when all of them can be resolved |
| `RegistryLaws.AliasMeansLatest` | src/karapace/core/schema_reader.py:766-790 | On every registry-written log a reference to the alias means the greatest live version of its subject, if there is one; any other reference means what it says |
| `RegistryLaws.ResolvedByName` | src/karapace/core/schema_reader.py:766-804 | After every registry-written log, what resolution gives is, at all levels, one dependency for each reference name: the live version that the last reference of that name means, with its stored schema |
| `RegistryLaws.StoredReferences` | src/karapace/core/schema_reader.py:641-723 | After every registry-written log, what the reader stores of an accepted record of whatever origin has the text of the record and its references pinned to live versions, an alias to the latest one; none for JSON schema |
| `LiveReferences.ResolvableIff` | src/karapace/core/schema_reader.py:755-804 | On every registry-written log, references that name versions can be resolved if and only if every version they lead to, through live versions, is live |
| `LiveReferences.ResolvableKeptIff` | src/karapace/core/schema_reader.py:755-804 | While the references of all live versions can be resolved, a legitimate record keeps it so if and only if it soft-deletes, by itself or with a subject, no version that a live version it does not soft-delete references |
| `LiveReferences.ResolvableAlong` | src/karapace/core/schema_reader.py:755-804 | Along a registry-written log every live version can be resolved at every point if and only if no record does that |
| `FailingRuns.ReferenceCutOff` | src/karapace/core/schema_registry.py:226-228 | A run of six requests after which a live version references one that is soft-deleted |
| `Compatibility.TransitiveModeHolds` | src/karapace/core/schema_registry.py:461-495 | If every registration of a subject since it last had no live version ran under one transitive mode and was stored with the schema type it was sent with, all live versions v < w are pairwise compatible under it, whatever deletes and registrations were interleaved |
| `RegistryLaws.TransitiveReads` | src/karapace/core/compatibility/__init__.py:16-42 | Under that hypothesis, with BACKWARD_TRANSITIVE every later live version can read the data of every earlier one, with FORWARD_TRANSITIVE every earlier one that of every later one, with FULL_TRANSITIVE both |
| `Compatibility.PassedAgainstAll` | src/karapace/core/schema_registry.py:461-495 | A registration that passed under a transitive mode is compatible with every live version of the subject |
| `Compatibility.SortedSpec` | src/karapace/core/schema_registry.py:497-504 | Sorting gives a non-decreasing list with the same elements, each as often |
| `Compatibility.UsedAlongRun` | src/karapace/core/schema_registry.py:337-393 | Invariant along every run: whenever since a subject was last empty a single transitive mode was used, and no registration stored under another type, its live versions are pairwise compatible under it |
| `Compaction.CompactionKeepsTable` | src/karapace/core/schema_reader.py:248 | Replaying any compaction of a registry-written log gives the same table (subject, version) to (id, text, references, deleted), provided the last record of each key is accepted both in the whole log and in the compaction |
| `Compaction.ReferenceFreeCompaction` | src/karapace/core/schema_reader.py:248 | Without references this holds of every compaction unconditionally, subject deletes and dropped tombstones included |
| `Compaction.CompactionKeepsSchemas` | src/karapace/core/schema_reader.py:248 | Where no text with its references is used under two schema types, the stored schemas are equal too |
| `Compaction.CompleteCompactionIff` | src/karapace/core/schema_reader.py:677-683 | For a compaction that leaves at most one record per key of a log in which the last record of each key was accepted, the tables agree if and only if its reader accepts every schema record left |
| `Compaction.EntrySeen` | src/karapace/core/schema_reader.py:614-723 | For every registry-written log, rejected records included, and every choice of records left of it: a version is what its deciding record (the last tombstone or accepted schema record of its key) with the subject deletes left after it makes of it |
| `Compaction.VersionKeptIff` | src/karapace/core/schema_reader.py:614-723 | So a version is the same for a reader of the whole log and one of the records left if and only if the deciding records of the two agree in id, text, references and deleted flag |
| `Compaction.DiffersOnlyByRefusal` | src/karapace/core/schema_reader.py:677-683 | In any compaction of any registry-written log, a version can differ from that of the whole log only if the last record of its key is a schema record that one of the two readers refuses |
| `Compaction.DiffersIff` | src/karapace/core/schema_reader.py:677-683 | If a compaction left only that record of the key: the version differs if and only if it is a soft delete that the second reader refuses, or that the first refused with no later subject delete, or a registration that exactly one of them refuses |
| `Compaction.VersionFromRecord` | src/karapace/core/schema_reader.py:614-723 | What a reader stores at a version after the last record of it that counts: that id and schema, deleted if the record says so or a subject delete seen later covers it |
| `Compaction.LaterDeletesCover` | src/karapace/core/schema_registry.py:186-203 | A later subject delete never stops short of a version that was live before it |
| `SharedIds.CompactionCanLoseVersion` | src/karapace/core/schema_reader.py:677-683 | A registry-written log accepted in full, and a compaction of it whose reader ends with a different version table |
| `FailingRuns.CompactedVersionLost` | src/karapace/core/schema_registry.py:205-238 | That log is the topic of a run of six requests |
| `SchemaTypes.StoredAsRegisteredIff` | src/karapace/core/in_memory_database.py:207-208 | An accepted record is stored with the schema it carries if and only if the first schema stored with that text and those references has the same schema type |
| `SchemaTypes.AllCarriedIff` | src/karapace/core/in_memory_database.py:207-208 | Along every registry-written log each accepted record is stored with the schema it carries if and only if no two accepted records share text and references and differ in type |
| `SchemaTypes.TypesCanMix` | src/karapace/core/schema_models.py:134-141 | A registry-written log in which one id goes with two schemas of different type and equal text |
| `FailingRuns.TypesMix` | src/karapace/core/schema_models.py:134-141 | That log is the topic of a run of three requests |
| `SchemaTypes.SameIdSameSchema` | src/karapace/core/coordinator/schema_coordinator.py:201-238 | In every cluster run in which no text with its references is registered under two types, two accepted records with one id carry equal schemas |
| `DatabaseStore.InMemoryDatabase.constructor` | src/karapace/core/in_memory_database.py:135-149 | A new database is empty with counter 0 |
| `DatabaseStore.InMemoryDatabase.GetSchemaIdFromStorage` | src/karapace/core/in_memory_database.py:167-171 | First id in insertion order that stores an equal schema; none only if there is none |
| `DatabaseStore.InMemoryDatabase.GetSchemaId` | src/karapace/core/in_memory_database.py:173-179 | A known schema keeps its id and the counter; an unknown one gets the incremented counter |
| `DatabaseStore.InMemoryDatabase.GetSchemaIdIfExists` | src/karapace/core/in_memory_database.py:181-191 | The entry of the subject's fingerprint table |
| `DatabaseStore.InMemoryDatabase.SetSchemaIdOnSubject` | src/karapace/core/in_memory_database.py:193-195 | Adds one fingerprint entry and keeps all others; no table is left empty |
| `DatabaseStore.InMemoryDatabase.DeleteFromSchemaIdOnSubject` | src/karapace/core/in_memory_database.py:197-202 | Removes one fingerprint, and the subject's table with its last one |
| `DatabaseStore.InMemoryDatabase.InsertReferencedBy` | src/karapace/core/in_memory_database.py:383-389 | The loop over references adds the id to the set of exactly the referenced versions |
| `DatabaseStore.InMemoryDatabase.RemoveReferencedBy` | src/karapace/core/in_memory_database.py:395-400 | The loop over references removes the id from exactly the referenced versions' sets |
| `DatabaseStore.InMemoryDatabase.InsertSubject` | src/karapace/core/in_memory_database.py:262-263 | Adds an empty subject or changes nothing |
| `DatabaseStore.InMemoryDatabase.SetSubjectCompatibility` | src/karapace/core/in_memory_database.py:270-276 | Sets or clears the mode of an existing subject only |
| `DatabaseStore.InMemoryDatabase.InsertSchemaVersion` | src/karapace/core/in_memory_database.py:213-260 | All six tables after an insert: the interned schema, version, id table, cache, fingerprint index and referents, for live and soft-deleted records, and the counter raised to the id |
| `DatabaseStore.InMemoryDatabase.DeleteSubject` | src/karapace/core/in_memory_database.py:342-347 | The loop over versions soft-deletes exactly those up to the given one and drops every stored version's fingerprint entry |
| `DatabaseStore.InMemoryDatabase.DeleteSubjectSchema` | src/karapace/core/in_memory_database.py:357-363 | Removes the version, its referents and its fingerprint entry, or changes nothing when it is not stored |
| `DatabaseStore.InMemoryDatabase.DeleteSubjectHard` | src/karapace/core/in_memory_database.py:349-355 | Removes the subject, its fingerprint table, and what its versions contribute to the referenced-by sets |
| `DatabaseStore.InMemoryDatabase.FindLiveVersions` | src/karapace/core/in_memory_database.py:330-340 | Exactly the live versions, in dict order |
| `DatabaseStore.InMemoryDatabase.GetNextVersion` | src/karapace/core/in_memory_database.py:210-211 | One above the greatest version, soft-deleted ones included, hence above all |
| `DatabaseStore.InMemoryDatabase.GetReferencedBy` | src/karapace/core/in_memory_database.py:391-393 | The referents recorded for a version |
| `RegistryService.KarapaceSchemaRegistry.HandleMsgConfig` | src/karapace/core/schema_reader.py:598-612 | State after a configuration record, global or of a subject, with and without value |
| `RegistryService.KarapaceSchemaRegistry.HandleMsgDeleteSubject` | src/karapace/core/schema_reader.py:614-625 | State after a subject delete record, unknown subjects included |
| `RegistryService.KarapaceSchemaRegistry.HandleMsgSchemaHardDelete` | src/karapace/core/schema_reader.py:627-639 | State after a tombstone; the subject goes with its last version |
| `RegistryService.KarapaceSchemaRegistry.HandleMsgSchema` | src/karapace/core/schema_reader.py:641-723 | State after a schema record; rejected, with nothing changed, exactly when its references cannot be resolved |
| `RegistryService.KarapaceSchemaRegistry.Handle` | src/karapace/core/schema_reader.py:725-746 | Dispatch by record kind reaches the state the model gives |
| `RegistryService.KarapaceSchemaRegistry.SendMessage` | src/karapace/core/schema_registry.py:414-459 | A sent record is appended to the topic and handled by the node's own reader before the call returns |
| `RegistryService.KarapaceSchemaRegistry.CheckSchemaCompatibility` | src/karapace/core/schema_registry.py:461-495 | The first obstacle among the versions the mode asks for: an unresolvable old schema or an incompatible one |
| `RegistryService.KarapaceSchemaRegistry.WriteNewSchemaLocal` | src/karapace/core/schema_registry.py:304-393 | Registration changes database and topic exactly as the model's step and keeps the registry invariant, on every path: known schema, first version, no live version, incompatible, new |
| `RegistryService.KarapaceSchemaRegistry.SubjectVersionDeleteLocal` | src/karapace/core/schema_registry.py:205-238 | The same for deleting a version, with each of its errors |
| `RegistryService.KarapaceSchemaRegistry.SubjectDeleteLocal` | src/karapace/core/schema_registry.py:145-203 | The same for deleting a subject, with each of its errors and one record after the other for a permanent delete |
| `RegistryService.KarapaceSchemaRegistry.Serve` | src/karapace/core/schema_registry.py:145-393 | For every sequence of requests the objects end where the model's run ends, and each reply is the model's |
| `Election.FirstUrl` | src/karapace/core/coordinator/schema_coordinator.py:426-433 | The URL chosen is in the dict and no other comes before it in the configured order |
| `Election.LessMeans` | src/karapace/core/coordinator/schema_coordinator.py:426-433 | URLs are ordered as strings: the first place where they differ decides, and a proper prefix comes first |
| `Election.UrlTells` | src/karapace/core/coordinator/schema_coordinator.py:85-86 | Two members have the same URL if and only if they have the same scheme, host and port |
| `Election.PerformAssignment` | src/karapace/core/coordinator/schema_coordinator.py:395-448 | All members are told the same master: a least (or greatest) URL among eligible members, or among all when none is eligible |
| `Election.MasterUnique` | src/karapace/core/coordinator/schema_coordinator.py:395-448 | Members with distinct ids and URLs have one such master |
| `Election.ExactlyOneMaster` | src/karapace/core/coordinator/schema_coordinator.py:466-503 | After a round exactly one member believes it is master if some member is eligible and none otherwise; it is the eligible member whose URL comes first |
| `Election.OrderIrrelevant` | src/karapace/core/coordinator/schema_coordinator.py:395-448 | The outcome does not depend on the order in which members are listed |
| `Coordination.SchemaCoordinator.AreWeMaster` | src/karapace/core/coordinator/schema_coordinator.py:201-238 | True if and only if the node is flagged, has joined, is past its wait and has a ready reader; otherwise nothing changes, except that a wait that is over ends and has the reader check again |
| `Coordination.SchemaCoordinator.BeforeRejoin` | src/karapace/core/coordinator/schema_coordinator.py:605-607 | The time of leading is noted exactly when the node acts |
| `Coordination.SchemaCoordinator.PerformAssignment` | src/karapace/core/coordinator/schema_coordinator.py:395-448 | Mastership is unknown while the leader computes the assignment |
| `Coordination.SchemaCoordinator.OnJoinComplete` | src/karapace/core/coordinator/schema_coordinator.py:450-514 | State, master URL and reader flag after a join: elected with a new wait, elected skipping it, or not master |
| `Coordination.SchemaCoordinator.CoordinatorDead` | src/karapace/core/coordinator/schema_coordinator.py:516-525 | Mastership is given up exactly when a coordinator was known |
| `Coordination.SchemaCoordinator.ResetGeneration` | src/karapace/core/coordinator/schema_coordinator.py:527-535 | Mastership, generation and member id are given up |
| `Coordination.SchemaCoordinator.LeaveGroup` | src/karapace/core/coordinator/schema_coordinator.py:325-343 | Leaving notes the time of leading and then gives everything up |
| `ClusterTiming.RunTimed` | src/karapace/core/coordinator/schema_coordinator.py:201-238 | In every cluster run at most one node is flagged, and the waits, last acts and noted times of any two nodes are apart as the protocol intends |
| `ClusterTiming.ActingApart` | src/karapace/core/coordinator/schema_coordinator.py:201-238 | If node n acts at one time and a different node m at another, m does so more than the waiting time later |
| `ClusterProgress.WaitingMasterActs` | src/karapace/core/coordinator/schema_coordinator.py:201-238 | After every run, a node flagged master that still waits acts at any time after its wait, once records in flight have arrived and it has been asked and caught up; no election and no other node is needed |
| `ClusterProgress.WaitedMasterActs` | src/karapace/core/coordinator/schema_coordinator.py:201-238 | So does one that has waited already, without time passing |
| `ClusterProgress.ReelectedActs` | src/karapace/core/coordinator/schema_coordinator.py:477-492 | A node that acts and is elected again goes on acting |
| `ClusterProgress.BackWithinWaitActs` | src/karapace/core/coordinator/schema_coordinator.py:477-492 | A node that acts, leaves, and is elected again no later than the wait after that, acts at once |
| `ClusterProgress.NewMasterWaits` | src/karapace/core/coordinator/schema_coordinator.py:477-492 | One that has not led within the wait is flagged and waits from the election on, with a reader that has to check again |
| `ClusterProgress.SomeoneActs` | src/karapace/core/coordinator/schema_coordinator.py:201-238 | From an empty cluster one eligible node gets to act |
| `ClusterTiming.SkipOnlyAfterWait` | src/karapace/core/coordinator/schema_coordinator.py:477-492 | After every run, elections included, a node whose mastership began without a wait has no wait of its own running |
| `ClusterTiming.SkipIsSafe` | src/karapace/core/coordinator/schema_coordinator.py:477-492 | And as long as it is flagged master, no other node has acted for longer than the waiting time |
| `ClusterFence.RunSealed` | src/karapace/core/coordinator/schema_coordinator.py:201-238 | In every run with records delivered within the waiting time, what is in flight comes from one sender, and a node past its wait with a ready reader has handled all that others sent |
| `ClusterFence.ActingIsCaughtUp` | src/karapace/core/coordinator/schema_coordinator.py:217-238 | Whenever a node acts it has handled every record any other node ever sent |
| `ClusterFence.ActsAfterReread` | src/karapace/core/schema_reader.py:357-416 | Whenever a node acts in a tenure that did not skip the wait, its reader has handled every record below an end offset it read after the whole wait had passed |
| `ClusterIds.PlanIds` | src/karapace/core/in_memory_database.py:173-179 | The id a write uses is either known to the node with that text and references or above everything it has seen |
| `ClusterIds.RunIds` | src/karapace/core/coordinator/schema_coordinator.py:201-238 | In every run ids go with one text and one reference list, among accepted records and records in flight |
| `ClusterIds.SameIdSameContent` | src/karapace/core/coordinator/schema_coordinator.py:201-238 | In every cluster run two accepted records with the same schema id carry the same text and references, whichever nodes wrote them |
| `ReadYourWrites.OffsetWatcher.OffsetSeen` | src/karapace/core/offset_watcher.py:32-35 | The greatest offset becomes the maximum of itself and the new one, so it never decreases |
| `ReadYourWrites.KafkaSchemaReader.ConsumeMessages` | src/karapace/core/schema_reader.py:459-541 | A batch, with every kind of message and the ready flag as read after each, leaves state, offset and watcher as the model's batch step; it ends with the next batch, an exception or a shutdown |
| `ReadYourWrites.KafkaSchemaReader.TakeOne` | src/karapace/core/schema_reader.py:463-541 | Per message, key and value taken apart: Kafka errors, undecodable keys or values and keys that are no object end the batch and do not move the offset; placeholders, keys and values that are not JSON and refused records move it; only an accepted one can raise the watcher; any other exception of the handler ends the batch |
| `ReadYourWrites.LoopSound` | src/karapace/core/schema_reader.py:459-541 | Along every run the state is that of the messages dealt with in order, the greatest offset never decreases, and it is -1 or the offset of one of them |
| `ReadYourWrites.BatchFinishedIff` | src/karapace/core/schema_reader.py:459-541 | The loop comes to the end of a batch if and only if no message in it ends it in the state it comes in: an error other than of authorization, undecodable bytes, a key that is no object, an error of the handler that is not caught; for a strict reader also any malformed or refused message. It has then dealt with every message that is not an error, and only a strict reader is ever shut down |
| `ReadYourWrites.WatcherBehindReader` | src/karapace/core/offset_watcher.py:32-45 | With rising offsets the watcher's greatest offset is -1 or at most the reader's offset |
| `ReadYourWrites.CaughtUpIff` | src/karapace/core/schema_reader.py:459-541 | With rising offsets, for every handler, every state, either mode and any ready flags: every message delivered at an offset the watcher reached was dealt with if and only if after a batch that an exception cut short of a message no later batch raises the watcher |
| `ReadYourWrites.SendReturnsHandledIff` | src/karapace/core/messaging.py:94-106 | The same from the start of the reader |
| `ReadYourWrites.SendReturnsHandled` | src/karapace/core/messaging.py:94-106 | Under that condition every message delivered at an offset the watcher reached has been dealt with, in the state a sender then finds |
| `ReadYourWrites.RecordCanBeMissed` | src/karapace/core/schema_reader.py:463-520 | For each of a Kafka error, an undecodable key or value and a key that is no object, and every handler that accepts the next batch: a run in which the watcher passes offset 1 while the record of offset 1, delivered behind it in its batch, is never handled |
| `ReadYourWrites.RaisedHidesRecord` | src/karapace/core/schema_reader.py:522-528 | The same behind a record on which the handler raises an exception that the loop does not catch |
| `ProtobufCompare.CompareMessage` | src/karapace/core/protobuf/message_element.py:94-175 | For any messages, recursive or not: ends (measure: identities not locked, then structure), leaves path, canonical name and lock list as they were, and only appends modifications |
| `ProtobufCompare.CompareType` | src/karapace/core/protobuf/field_element.py:86-149 | The same for two types, maps included |
| `ProtobufCompare.CompareOneOf` | src/karapace/core/protobuf/one_of_element.py:55-73 | The same for two one-ofs |
| `ProtobufCompare.CompareEnum` | src/karapace/core/protobuf/enum_element.py:53-80 | The same for two enums; the type tables are left alone |
| `ProtobufCompare.CompareTypeLists` | src/karapace/core/protobuf/compare_type_lists.py:18-67 | The same for two lists of types, whatever their nested types enter into the tables |
| `ProtobufReflexive.SelfComparisonSilent` | src/karapace/core/protobuf/message_element.py:94-175 | A file with unlabelled map fields and no number shared by a plain field and a one-of, compared with itself: no modification at any depth, whatever recursion there is |
| `ProtobufReflexive.NamedTypesSilent` | src/karapace/core/protobuf/message_element.py:94-175 | A file compared with itself gives no modification if its own types, and the types of dependencies that the names in its fields can stand for, are well-formed, for any set of names closed under that |
| `ProtobufReflexive.SelfComparisonSilentIff` | src/karapace/core/protobuf/message_element.py:123-133 | With map fields unlabelled, as the parser enforces, a file whose comparison with itself gives no modification has no message, at any depth, that uses a number both for a plain field and inside a one-of; if the types of its dependencies that its fields can reach are well-formed in that sense, it is an equivalence |
| `ProtobufDependencies.FileCanDifferFromItself` | src/karapace/core/protobuf/message_element.py:123-133 | A file whose message has number 1 as a plain field and in a one-of is reported to differ from itself |
| `ProtobufDependencies.LaterDependenciesUnseen` | src/karapace/core/protobuf/proto_file_element.py:22-35 | After a dependency without references of its own, the remaining dependencies enter no types |
| `ProtobufDependencies.CollectedEnters` | src/karapace/core/protobuf/proto_file_element.py:22-35 | The type table is that of exactly the files the recursion gets to, each before its own dependencies |
| `ProtobufDependencies.AllEnteredIff` | src/karapace/core/protobuf/proto_file_element.py:22-35 | These are all files the references lead to if in every list of dependencies, at every level, all but the last have references of their own; otherwise at least one file is left out |
| `ProtobufDependencies.UnseenDependencies` | src/karapace/core/protobuf/proto_file_element.py:133-154 | On either side, replacing the dependencies after one without references by any others changes no modification found |
| `ProtobufDependencies.HiddenChange` | src/karapace/core/protobuf/proto_file_element.py:133-154 | So two states of a well-formed file that differ only there compare without any modification |
| `ProtobufDependencies.BreakCanBeHidden` | src/karapace/core/protobuf/proto_file_element.py:22-35 | A message whose int32 field became a string is incompatible; the file that uses it, with that message's file second among its dependencies, is not reported to have changed |
| `ProtobufDependencies.BreakIsSeen` | src/karapace/core/protobuf/field_element.py:151-169 | With that message's file as its only dependency the file is called incompatible |
| `ProtobufVerdict.FileVerdict` | src/karapace/core/protobuf/compare_result.py:40-50 | A file called compatible drops no message and has, at any depth of nesting, no field with another wire kind or label (a name against a scalar counts as a varint), no renumbered field, no lost or broken one-of field and no two fields merged into a one-of; for files of scalar and map-of-scalar fields it is called compatible if and only if that is so |
| `ProtobufWire.KindsAreFormats` | src/karapace/core/protobuf/proto_type.py:225-250 | Two scalar types are of one kind if and only if they have values in common and each of them, written on the wire as one type and read as the other, comes back either way |
| `ProtobufWire.ScalarFieldsIff` | src/karapace/core/protobuf/field_element.py:130-147 | Two files with one scalar field each, for all types and labels, are called compatible if and only if the types read each other's values so and the label is kept, which for strings and bytes it need not be |
| `ProtobufWire.EnumIsNumber` | src/karapace/core/protobuf/field_element.py:116-147 | A field that becomes an enum or stops being one is compatible if and only if the other type reads int32 values and the label is kept |
| `ProtobufVerdict.NamedTypeVerdict` | src/karapace/core/protobuf/field_element.py:86-169 | Exactly when a change of a field with a named type is called compatible, by what the names stand for: a message against a scalar never is, an enum against a scalar if kind and label agree, an enum against a message never, two names of which one is undeclared only if they are the same, two declared messages always if their names differ, and otherwise as the messages compare |
| `ProtobufExact.MessageExact` | src/karapace/core/protobuf/message_element.py:94-175 | For messages without nested types whose names of fields are declared and unambiguous, whatever is locked: comparing two of them finds something incompatible if and only if they are bad, a property of the two tables and the locked messages alone |
| `ProtobufExact.FileExact` | src/karapace/core/protobuf/proto_file_element.py:133-154 | Two such files are called compatible if and only if no message is gone or bad |
| `ProtobufChains.BodySplit` | src/karapace/core/protobuf/message_element.py:94-175 | A pair of messages is bad if and only if it is broken by itself or two fields that are compared name a bad pair |
| `ProtobufChains.IncompatibleIff` | src/karapace/core/protobuf/proto_file_element.py:133-154 | Two such files, with message and enum fields, are called incompatible if and only if a message is gone, or from two messages of the same name a chain of different messages, each named by fields of the one before, leads to a pair with fields merged into a one-of, renumbered, lost from a one-of or of types that do not fit |
| `ProtobufVerdict.EnumJudged` | src/karapace/core/protobuf/enum_element.py:53-80 | No change to an enum changes the verdict |
| `ProtobufReports.EnumReports` | src/karapace/core/protobuf/enum_element.py:53-80 | Comparing two enums reports exactly an added constant for a number only the second has, a dropped one for a number only the first has, an altered one for a number with two names, each at that number |
| `ProtobufReports.MessageReports` | src/karapace/core/protobuf/message_element.py:135-160 | Comparing two messages reports, for every number no one-of took over, an added field if only the second has it, a dropped one if only the first has it, a renamed one if names differ, at that number |
| `ProtobufReports.OneOfFieldsSay` | src/karapace/core/protobuf/one_of_element.py:55-73 | Comparing two one-ofs reports a member added or lost at each number that only one of them has |
| `ProtobufReports.OneOfsSay` | src/karapace/core/protobuf/message_element.py:162-173 | Comparing the one-ofs of two messages reports one added or lost under each name that only one of them has |
| `ProtobufReports.FileReports` | src/karapace/core/protobuf/compare_type_lists.py:18-67 | Comparing two files reports a message or enum added or dropped for each name only one of them declares, and an altered type where kinds differ |
| `ProtobufVerdict.SeveralTaken` | src/karapace/core/protobuf/message_element.py:123-133 | The count of fields taken into a one-of exceeds one exactly when two different numbers of plain fields are in it |
| `ProtobufTables.TakeOutAllSpec` | src/karapace/core/protobuf/message_element.py:123-133 | What is left of the plain fields are exactly those whose number no one-of of the other side uses |
| `ProtobufTables.EntersOne` | src/karapace/core/protobuf/compare_type_storage.py:51-71 | A type is entered under the name of what encloses it, and every type nested in it under its own |
| `ProtobufTables.ShortNameMeans` | src/karapace/core/protobuf/compare_type_storage.py:73-115 | A type of a package has the name by which the package knows it |
| `ProtobufReflexive.InnermostScope` | src/karapace/core/protobuf/compare_type_storage.py:18-37 | A relative name means the type of the innermost enclosing scope that declares it, and nothing if none does |
| `ProtobufComparison.CompareResult.constructor` | src/karapace/core/protobuf/compare_result.py:70-73 | A new result has no modifications and an empty path |
| `ProtobufComparison.CompareResult.PushPath` | src/karapace/core/protobuf/compare_result.py:75-78 | Pushes on the path, and on the canonical name when asked to |
| `ProtobufComparison.CompareResult.PopPath` | src/karapace/core/protobuf/compare_result.py:80-83 | Undoes such a push |
| `ProtobufComparison.CompareResult.AddModification` | src/karapace/core/protobuf/compare_result.py:85-87 | Appends one record at the current path and moves no stack |
| `ProtobufComparison.CompareResult.IsCompatible` | src/karapace/core/protobuf/compare_result.py:89-90 | True exactly when every modification is a compatible one |
| `ProtobufComparison.CompareTypes.constructor` | src/karapace/core/protobuf/compare_type_storage.py:41-49 | New tables are empty and nothing is locked |
| `ProtobufComparison.CompareTypes.LockMessage` | src/karapace/core/protobuf/compare_type_storage.py:117-121 | Locks, or answers false when an equal message is locked |
| `ProtobufComparison.CompareTypes.UnlockMessage` | src/karapace/core/protobuf/compare_type_storage.py:123-128 | Takes out the first equal message |
| `ProtobufComparison.AddAType` | src/karapace/core/protobuf/compare_type_storage.py:51-71 | Enters a type and, under its name, all types nested in it |
| `ProtobufComparison.Compute` | src/karapace/core/protobuf/compare_type_storage.py:18-37 | Finds the name in the innermost enclosing scope that declares it; absolute names only as they are |
| `ProtobufComparison.EnumCompare` | src/karapace/core/protobuf/enum_element.py:53-80 | The loop over tags appends exactly the modifications of the model |
| `ProtobufComparison.TypeCompare` | src/karapace/core/protobuf/field_element.py:86-149 | Tables, locks, path and modifications after comparing two types are the model's |
| `ProtobufComparison.NamedCompare` | src/karapace/core/protobuf/field_element.py:151-169 | The same for two named types: unknown, differently named, or compared in turn |
| `ProtobufComparison.FieldCompare` | src/karapace/core/protobuf/field_element.py:80-84 | The same for two fields |
| `ProtobufComparison.OneOfCompare` | src/karapace/core/protobuf/one_of_element.py:55-73 | The same for two one-ofs |
| `ProtobufComparison.ConvertFields` | src/karapace/core/protobuf/message_element.py:123-133 | The nested loops take out the plain fields that moved into one-ofs and report a one-of that took several |
| `ProtobufComparison.FieldsCompare` | src/karapace/core/protobuf/message_element.py:135-160 | The loop over plain fields: renumbered, added, dropped or compared |
| `ProtobufComparison.MessageCompare` | src/karapace/core/protobuf/message_element.py:94-175 | The whole comparison of two messages under the lock is the model's, and path, canonical name and lock list come back unchanged |
| `ProtobufComparison.CompareLists` | src/karapace/core/protobuf/compare_type_lists.py:18-67 | The same for two lists of types |
| `ProtobufComparison.FileCompare` | src/karapace/core/protobuf/proto_file_element.py:133-154 | The modifications between two files with their dependencies, the early return among them included |
| `ProtobufComparison.CheckCompatibility` | src/karapace/core/compatibility/protobuf/checks.py:11-16 | A reader's schema is compatible with a writer's exactly when every modification from the writer's to the reader's is |
| `AvroResolve.Resolve` | src/karapace/core/schema_models.py:200-222 | The stack loop ends on every dependency tree with the first-occurrence deduplication of the tree's recursive post-order |
| `AvroResolve.DedupSpec` | src/karapace/core/schema_models.py:206-222 | Deduplication lists each text once and drops none |
| `AvroResolve.PushReversed` | src/karapace/core/schema_models.py:217-220 | Pushing dependencies in reverse leaves them to be followed in order |
| `AvroResolve.VisitedInOrder` | src/karapace/core/schema_models.py:213-222 | Dependencies are visited in the order they are listed in |
| `AvroResolve.ReferencedFirstIff` | src/karapace/core/schema_models.py:200-222 | For every dependency tree, referenced schemas are merged before their referrers if and only if whatever a schema needs is led to by the first schema with its text that the visit comes to, or visited before that one |
| `AvroResolve.ReferencedSchemasFirst` | src/karapace/core/schema_models.py:200-222 | They are whenever equal texts come with equal dependencies |
| `AvroResolve.SameTextFails` | src/karapace/core/schema_models.py:200-222 | They are not whenever a schema references two with the same text of which the second needs something the first does not lead to |
| `AvroOrder.ResolvedSchemasFirst` | src/karapace/core/schema_models.py:200-222 | For every schema with the dependencies its references resolve to, in any database: if no two schemas it leads to share a text and differ in references, all referenced schemas are merged before their referrers |
| `AvroOrder.OrderCanFail` | src/karapace/core/schema_models.py:200-222 | A run of three registrations after which the resolved dependencies of a schema are merged with a referrer before what it references |
| `FlattenUnions.FlattenUnions` | src/karapace/core/serialization.py:391-450 | The recursive code computes the flattening for any schema and any JSON value |
| `FlattenUnions.TagIsLabel` | src/karapace/core/serialization.py:431-436 | The code looks for the labels of the specification's JSON encoding: the primitive's name, array, map, or the name of the record, enum or fixed type, also by reference |
| `FlattenUnions.FlattenUndoesEncode` | src/karapace/core/serialization.py:422-450 | For every schema, recursive ones included, with distinct branch names in the unions met, and every conforming value: flattening the tagged encoding gives back the plain value |
| `FlattenUnions.FlattenIdentityIff` | src/karapace/core/serialization.py:416-417 | Flattening leaves a value as it is if and only if no union in it is an object holding a branch name as key |
| `AvroWrite.ValidatesIff` | src/karapace/core/serialization.py:475-481 | A value validates if and only if it is what the program holds for some value of the schema |
| `AvroWrite.WriteValue` | src/karapace/core/serialization.py:475-484 | The value is handed to the writer as it is if it validates, and flattened otherwise |
| `AvroWrite.PlainWritten` | src/karapace/core/serialization.py:475-481 | For every schema, recursive ones included, a value without tags is written as it is, whatever its keys |
| `AvroWrite.TaggedWrittenIff` | src/karapace/core/serialization.py:475-481 | The tagged encoding of a value is written as the plain value if and only if it does not itself validate or has no tags |
| `AvroWrite.TagsKeptIff` | src/karapace/core/serialization.py:475-481 | It is written as something else if and only if it also is what the program holds for another value of the schema |
| `AvroWrite.TagCanBeKept` | src/karapace/core/serialization.py:475-481 | An empty map in a union with a map of maps: its tagged encoding validates and is written with its tag |
| `AvroWrite.UntaggedFieldDamaged` | src/karapace/core/serialization.py:475-481 | A record with one tagged field does not validate; flattening turns its other field, valid without tag, into a value that does not validate |

## Left out

- Kafka clients, HTTP routing, forwarding to the master, authentication, metrics and logging: input and output around the core.
- Parsing and normalising schemas, and the Avro and JSON-schema compatibility verdicts: external to the modelled code.
- Records that are not of the four kinds the registry sends: the loop has them, with any handler; the database model has not.
- `InMemoryDatabase.find_schemas`, `subjects_for_schema`, counters and listings: would only add easy members.
- Protobuf map entries: the test for the option compares a string with option objects, which never are equal, so that branch is not reached; services, extensions, groups and reserved ranges are not compared by the code.
- Blocking and the timeout of the offset watcher: the model states when a waiting sender may go on.
- Interleaving of threads inside one method, and locks as objects.
- Compaction.CompactionKeepsTable: is about the table of versions; configuration, existence of empty subjects and the two indexes can differ after compaction.
- ProtobufReflexive.SelfComparisonSilentIff: silence is promised only if the types of dependencies that fields can reach have no shared number either, since a named type leads the comparison into them; which of them it reaches in fact depends on scopes.
- AvroOrder.ResolvedSchemasFirst: is sufficient only; `ReferencedFirstIff` is exact, on the tree.
- ProtobufWire.ScalarFieldsIff: of floating-point numbers only zero and one are written out, which tell their formats from all others; text is ASCII for strings and bytes for bytes.
- ProtobufVerdict.FileVerdict: for fields of message and enum type it gives one direction, for all files; `IncompatibleIff` is exact for files without nested types whose names are declared and unambiguous. With nested types the tables change during the comparison, so what a name stands for depends on the order.
- Compaction.DiffersIff: is about keys of which only the last record is left; with earlier ones left as well, `EntrySeen` says what remains.
