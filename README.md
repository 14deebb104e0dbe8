# Sirix collection and item key stream, modelled in Dafny

This project models two pieces of Sirix's XQuery binding.

1. **`DBCollection`**: a collection of documents over one Sirix database, one resource per
   document. The model covers:
   - how a document is looked up, by point in time or by revision number, read-only or updatable;
   - how the un-named lookup refuses a collection of several resources;
   - how `remove(long)` narrows its id before asking the database for the resource name;
   - how `add` names a new resource after the current resource count;
   - collection equality.
2. **`SirixJsonItemKeyStream`**: the stream of query items produced from the results of an
   index lookup. It iterates an outer iterator of node-reference groups and, inside each, an
   iterator of node keys. For every key it moves one shared read-only cursor there and builds
   an item from it.

The storage engine itself is not modelled. It is represented by the calls the collection makes:
- opening a resource manager;
- asking for the running write transaction;
- beginning, reverting and closing transactions;
- listing, creating and removing resources.

Each resource is a value (`Store.Resource`) holding:
- the commit timestamps of its revisions, numbered from 1;
- whether a write transaction runs, and the one the store hands out;
- the open transactions, each with its kind and the revision it exposes.

Each resource sits in a `Store.ResourceManager` object whose methods update it. The
`Store.Database` object holds the managers by name, the listing order and the numeric ids.

Modules:

- `Wrappers`: `Option`.
- `Store`: resources, answers (a value, null or a failure), the store primitives as
  functions, the `ResourceManager` and `Database` classes.
- `Resolution`: what one document request does to one resource, as functions returning
  the new resource state and the answer, plus the lemmas stating what a request guarantees:
  - the floor revision for a point in time;
  - the shared write transaction;
  - at most one write transaction;
  - the exact revision for a revision number, for a read-only request and for an updatable
    one below the most recent revision.
- `Naming`: the decimal resource name `"resource" + (count + 1)` and Java's `(int)` cast
  of a `long`.
- `DBCollection`: the `Collection` class. Its methods call the store step by step in the
  source's order, and their postconditions equal the `Resolution` functions.
- `KeyStream`: the `ItemKeyStream` class and a pure step function `Step`. The class's
  `Next` is proved to follow `Step`, and the lemmas about `Step` and `Run` say which items
  the stream yields.

Timestamps (`Instant`) are integers. The store's own lookup of the revision for a point in
time is not part of this model; it enters as the parameter `looked`, the revision the store
names for that time. The floor guarantee is proved under the assumption that this answer is
the floor revision or the one after it (`Resolution.NearFloor`). Under that assumption the
code's "step one revision back when it is newer than t" correction gives the floor revision
for every read-only request. For an updatable request it does so only when the looked-up
revision is older than the most recent one, because only then does the code revert.

Two behaviours of the code are easy to miss; the model keeps them:
- An updatable request by point in time checks the timestamp only when the looked-up
  revision is older than the most recent one. When the lookup names the most recent
  revision, the leased write transaction is returned on whatever revision it exposes at that
  moment (`Resolution.WritableAtLatestKeepsLeasedRevision`):
  - a newly begun write transaction exposes the most recent revision, even one committed
    after the requested time (`Resolution.SingleRevisionWritableIgnoresTime`);
  - a reused write transaction that an earlier request reverted stays on that older revision
    (`Resolution.EarlierRevertPersists`), which may lie below the floor for the requested
    time (`Resolution.RevertedLeaseLagsFloor`).
- An updatable request by revision number reverts only to a version below the most recent
  one. A request for the most recent version, revision -1 included, returns the leased
  write transaction on whatever revision it exposes
  (`Resolution.WritableAtLatestVersionKeepsLeasedRevision`), so a transaction reverted
  earlier answers on its older revision (`Resolution.LatestRequestKeepsRevertedLease`).
- A revert may move a reused write transaction forward as well as back: a request by
  revision number or by point in time for a revision newer than the one the transaction
  exposes moves it there (`Resolution.RevertMovesLeaseForward`).
- A resource's name for `add` comes from the count of resources. After a removal, the
  name can already be in use (`Naming.NewResourceNameMayBeTaken`).

## Model

| member | source | states |
|---|---|---|
| Resolution.LeaseWrite | bundles/sirix-xquery/src/main/java/org/sirix/xquery/node/DBCollection.java:139-149 | the write transaction the store hands out is reused unchanged; otherwise a new one is begun on the most recent revision under a fresh handle; either way the resource then has exactly that write transaction and the same revisions |
| Resolution.WritableAtTime | bundles/sirix-xquery/src/main/java/org/sirix/xquery/node/DBCollection.java:138-164 | an updatable request by time never fails, keeps the resource's revisions, answers with an open transaction, and begins at most one transaction |
| Resolution.RevertForTime | bundles/sirix-xquery/src/main/java/org/sirix/xquery/node/DBCollection.java:153-164 | reverting the leased write transaction for a point in time keeps the resource's revisions, never fails, and answers either with that same transaction still open or with null after closing it |
| Resolution.ReadOnlyAtTime | bundles/sirix-xquery/src/main/java/org/sirix/xquery/node/DBCollection.java:165-180 | a read-only request by time never fails, answers with a transaction that was not open before, and leaves every earlier transaction and the write transaction untouched |
| Resolution.AtTime | bundles/sirix-xquery/src/main/java/org/sirix/xquery/node/DBCollection.java:133-184 | a request by point in time, read-only or updatable, never fails, keeps the resource's revisions, and a found answer is an open transaction |
| Resolution.AtRevision | bundles/sirix-xquery/src/main/java/org/sirix/xquery/node/DBCollection.java:334-361 | a request by revision number never answers null, keeps the resource's revisions, and a found answer is an open transaction |
| Resolution.SelectVersion | bundles/sirix-xquery/src/main/java/org/sirix/xquery/node/DBCollection.java:336-338 | revision -1 stands for the most recent revision; any other value is used as given |
| Resolution.WritableAtVersion | bundles/sirix-xquery/src/main/java/org/sirix/xquery/node/DBCollection.java:341-355 | an updatable request by version never answers null, keeps the resource's revisions, and a found answer is an open transaction |
| Resolution.ReadOnlyAtVersion | bundles/sirix-xquery/src/main/java/org/sirix/xquery/node/DBCollection.java:356-358 | a read-only request by version never answers null, keeps the resource's revisions, and a found answer is an open transaction |
| Resolution.BeginUnlessPresent | bundles/sirix-xquery/src/main/java/org/sirix/xquery/node/DBCollection.java:261-262 | beginning a write transaction answers null exactly when one is already present, and then changes nothing; otherwise the new handle is fresh, becomes the write transaction and exposes the most recent revision |
| Resolution.BeginOnNewResource | bundles/sirix-xquery/src/main/java/org/sirix/xquery/node/DBCollection.java:256-262 | on a newly created resource the first write transaction is handle 0, on revision 1, and marks a write transaction as running |
| Resolution.SuccessiveLeasesShareTrx | bundles/sirix-xquery/src/main/java/org/sirix/xquery/node/DBCollection.java:139-146 | a second updatable lease right after the first returns the same write transaction and changes nothing |
| Resolution.ReadOnlyRequestsAreIndependent | bundles/sirix-xquery/src/main/java/org/sirix/xquery/node/DBCollection.java:356-358 | two read-only requests in a row never answer with the same transaction |
| Resolution.AtMostOneWriteTrxBegun | bundles/sirix-xquery/src/main/java/org/sirix/xquery/node/DBCollection.java:138-149 | after any updatable request, every open write transaction was open before or is the single handle a begin gives out |
| Resolution.FloorZeroIffBeforeFirst | bundles/sirix-xquery/src/main/java/org/sirix/xquery/node/DBCollection.java:156-162 | no revision was committed by t exactly when t precedes the first revision's timestamp; otherwise the floor is the newest revision committed by t |
| Resolution.ReadOnlyAtTimeCases | bundles/sirix-xquery/src/main/java/org/sirix/xquery/node/DBCollection.java:166-180 | too new and not the first revision: the first transaction is closed and a fresh read-only one opens one revision back; too new on revision 1: closed and null; otherwise the opened transaction is the answer |
| Resolution.WritableAtTimeCases | bundles/sirix-xquery/src/main/java/org/sirix/xquery/node/DBCollection.java:151-164 | at or after the most recent revision nothing is reverted; otherwise the write transaction is reverted to the looked-up revision, then one further back when it is newer than t, or closed with a null answer on revision 1 |
| Resolution.ReadOnlyAtTimeIsFloor | bundles/sirix-xquery/src/main/java/org/sirix/xquery/node/DBCollection.java:166-180 | with a lookup at most one revision late, the answer is null exactly when t precedes the first commit, and otherwise a read-only transaction on the newest revision committed no later than t |
| Resolution.WritableAtTimeIsFloor | bundles/sirix-xquery/src/main/java/org/sirix/xquery/node/DBCollection.java:151-164 | the same floor guarantee for the updatable request when the lookup is older than the most recent revision; a null answer closes the write transaction |
| Resolution.SingleRevisionWritableIgnoresTime | bundles/sirix-xquery/src/main/java/org/sirix/xquery/node/DBCollection.java:151-153 | on a single revision committed after t, the updatable request still answers with a transaction on that revision while the read-only request answers null |
| Resolution.WritableAtLatestKeepsLeasedRevision | bundles/sirix-xquery/src/main/java/org/sirix/xquery/node/DBCollection.java:138-153 | when the lookup names the most recent revision, the updatable request answers with the leased write transaction on the revision it already exposed: the reused one's current revision, or the most recent for a new one |
| Resolution.EarlierRevertPersists | bundles/sirix-xquery/src/main/java/org/sirix/xquery/node/DBCollection.java:151-153 | after an updatable request by revision number reverted the write transaction to an older version, an updatable request by time whose lookup names the most recent revision returns it unchanged, still on that version |
| Resolution.RevertedLeaseLagsFloor | bundles/sirix-xquery/src/main/java/org/sirix/xquery/node/DBCollection.java:151-153 | with revisions committed at 10 and 20 and the write transaction reverted to revision 1, a request as of 100 with a correct lookup of revision 2 answers with revision 1, below the floor |
| Resolution.MinusOneIsLatest | bundles/sirix-xquery/src/main/java/org/sirix/xquery/node/DBCollection.java:336-338 | revision -1 gives the same outcome as asking for the most recent revision |
| Resolution.WritableAtRevision | bundles/sirix-xquery/src/main/java/org/sirix/xquery/node/DBCollection.java:341-355 | an updatable request reverts the leased write transaction to the version only when it is older than the most recent; a newer or current version leaves the lease as is; a version below 1 fails as no such revision |
| Resolution.ReadOnlyAtRevision | bundles/sirix-xquery/src/main/java/org/sirix/xquery/node/DBCollection.java:356-358 | a read-only request opens a new read-only transaction exactly on the version, or fails and leaves the resource as it was |
| Resolution.WritableAtLatestVersionKeepsLeasedRevision | bundles/sirix-xquery/src/main/java/org/sirix/xquery/node/DBCollection.java:341-355 | an updatable request for the most recent version or a later one answers with the leased write transaction on the revision it already exposes: the reused one's current revision, or the most recent for a new one |
| Resolution.LatestRequestKeepsRevertedLease | bundles/sirix-xquery/src/main/java/org/sirix/xquery/node/DBCollection.java:336-355 | with revisions committed at 10 and 20 and the write transaction reverted to revision 1, updatable requests for revision -1 and for revision 2 both answer with it on revision 1 |
| Resolution.RevertMovesLeaseForward | bundles/sirix-xquery/src/main/java/org/sirix/xquery/node/DBCollection.java:151-164 | with revisions committed at 10, 20 and 30 and the write transaction on revision 1, an updatable request for revision 2 and one as of 25 with lookup 2 both move it forward to revision 2 |
| Resolution.ThreeRevisionScenario | bundles/sirix-xquery/src/main/java/org/sirix/xquery/node/DBCollection.java:166-180 | with revisions committed at 10, 20 and 30: as of 25 gives revision 2, as of 5 gives null, as of 30 gives revision 3, revision -1 gives revision 3 |
| DBCollection.Attach | bundles/sirix-xquery/src/main/java/org/sirix/xquery/node/DBCollection.java:183 | a found transaction becomes a document on that resource in this collection; null and failures pass through unchanged |
| DBCollection.Collection.constructor | bundles/sirix-xquery/src/main/java/org/sirix/xquery/node/DBCollection.java:64-68 | a collection keeps its name and its database; its id, drawn from the process-wide sequence in the code, is given to it |
| DBCollection.Collection.Equals | bundles/sirix-xquery/src/main/java/org/sirix/xquery/node/DBCollection.java:74-84 | two collections are equal exactly when they sit on the same database |
| DBCollection.Collection.HashCode | bundles/sirix-xquery/src/main/java/org/sirix/xquery/node/DBCollection.java:86-89 | the hash code is the database's hash code |
| DBCollection.EqualsIsEquivalence | bundles/sirix-xquery/src/main/java/org/sirix/xquery/node/DBCollection.java:74-89 | equality is reflexive, symmetric and transitive, and equal collections have equal hash codes |
| DBCollection.Collection.LeaseWriteTrx | bundles/sirix-xquery/src/main/java/org/sirix/xquery/node/DBCollection.java:139-149 | the store calls of the lease produce exactly the state and handle of `LeaseWrite` |
| DBCollection.Collection.WritableAtTimeSteps | bundles/sirix-xquery/src/main/java/org/sirix/xquery/node/DBCollection.java:138-164 | the store calls of the updatable branch produce exactly the outcome of `WritableAtTime` |
| DBCollection.Collection.RevertForTimeSteps | bundles/sirix-xquery/src/main/java/org/sirix/xquery/node/DBCollection.java:153-164 | the revert and close calls on the leased write transaction produce exactly the outcome of `RevertForTime` |
| DBCollection.Collection.ReadOnlyAtTimeSteps | bundles/sirix-xquery/src/main/java/org/sirix/xquery/node/DBCollection.java:165-180 | the store calls of the read-only branch produce exactly the outcome of `ReadOnlyAtTime` |
| DBCollection.Collection.GetDocumentAtTime | bundles/sirix-xquery/src/main/java/org/sirix/xquery/node/DBCollection.java:125-184 | an unknown resource fails; otherwise only that resource changes, to the state `AtTime` gives, and the answer is its answer as a document of this collection |
| DBCollection.Collection.GetDocumentAtRevision | bundles/sirix-xquery/src/main/java/org/sirix/xquery/node/DBCollection.java:326-361 | an unknown resource fails; otherwise only that resource changes, to the state `AtRevision` gives, and the answer is its answer as a document of this collection |
| DBCollection.Collection.WritableAtVersionSteps | bundles/sirix-xquery/src/main/java/org/sirix/xquery/node/DBCollection.java:341-355 | the store calls of the updatable branch produce exactly the outcome of `WritableAtVersion` |
| DBCollection.Collection.ReadOnlyAtVersionSteps | bundles/sirix-xquery/src/main/java/org/sirix/xquery/node/DBCollection.java:356-358 | the store call of the read-only branch produces exactly the outcome of `ReadOnlyAtVersion` |
| DBCollection.Collection.GetSoleDocument | bundles/sirix-xquery/src/main/java/org/sirix/xquery/node/DBCollection.java:205-221 | several resources fail as more than one document, none fails as no documents, and the one resource is opened read-only as `AtRevision` says |
| DBCollection.Collection.GetSoleDocumentAt | bundles/sirix-xquery/src/main/java/org/sirix/xquery/node/DBCollection.java:363-374 | the same refusals, then the one resource resolved as `AtRevision` says for the requested updatability |
| DBCollection.Collection.Remove | bundles/sirix-xquery/src/main/java/org/sirix/xquery/node/DBCollection.java:195-203 | a negative id, or one whose 32-bit narrowing names no resource, changes nothing; otherwise exactly the named resource leaves the managers, the listing and the ids |
| DBCollection.Collection.Add | bundles/sirix-xquery/src/main/java/org/sirix/xquery/node/DBCollection.java:251-278 | the name is `NewResourceName` of the old count; every other name keeps its manager and only that name's manager may change; a fresh name gets a new manager, is listed last and is known under the next id; an existing name keeps the listing, ids and managers; either way the resource's new state and the answer are those of `BeginUnlessPresent`, so a present write transaction gives null |
| DBCollection.Collection.AddResource | bundles/sirix-xquery/src/main/java/org/sirix/xquery/node/DBCollection.java:280-292 | creating a resource under a given name and beginning its write transaction: the same guarantees as `Add` for that name |
| DBCollection.Collection.BeginWriteUnlessPresent | bundles/sirix-xquery/src/main/java/org/sirix/xquery/node/DBCollection.java:261-277 | the write-transaction lookup and begin on one resource produce exactly the outcome of `BeginUnlessPresent`, and no other resource's state changes |
| DBCollection.AddLeavesOthersAlone | bundles/sirix-xquery/src/main/java/org/sirix/xquery/node/DBCollection.java:251-278 | adding a resource leaves the manager and the state of every resource with a different name unchanged |
| DBCollection.UpdatableLookupsShareTrx | bundles/sirix-xquery/src/main/java/org/sirix/xquery/node/DBCollection.java:341-355 | two updatable lookups of existing versions in a row answer with the same document |
| Store.Database.RemoveResource | bundles/sirix-xquery/src/main/java/org/sirix/xquery/node/DBCollection.java:200 | the resource leaves the managers, the listing (order kept) and the ids, and the database stays consistent |
| Store.Database.CreateResource | bundles/sirix-xquery/src/main/java/org/sirix/xquery/node/DBCollection.java:256-261 | a fresh name gets a new manager with one revision, listed last and known under the next id, with the id counter advanced; an existing name changes nothing; every existing manager stays in place |
| Store.Database.ResourceName | bundles/sirix-xquery/src/main/java/org/sirix/xquery/node/DBCollection.java:198 | a name exactly for the known ids, and it is the name known under that id |
| Store.ResourceManager.BeginNodeTrx | bundles/sirix-xquery/src/main/java/org/sirix/xquery/node/DBCollection.java:145-148 | assumed contract of the store: a write transaction, begun while none is present, gets a fresh handle, exposes the most recent revision and becomes the running write transaction |
| Store.ResourceManager.BeginNodeReadOnlyTrx | bundles/sirix-xquery/src/main/java/org/sirix/xquery/node/DBCollection.java:357 | assumed contract of the store: a read-only transaction on an existing revision gets a fresh handle on exactly that revision; any other revision is refused and nothing changes |
| Store.ResourceManager.RevertTrx | bundles/sirix-xquery/src/main/java/org/sirix/xquery/node/DBCollection.java:355 | assumed contract of the store: reverting to an existing revision makes the transaction expose it and answers with the transaction; any other revision is refused and nothing changes |
| Store.ResourceManager.CloseTrx | bundles/sirix-xquery/src/main/java/org/sirix/xquery/node/DBCollection.java:159 | assumed contract of the store: the transaction is no longer open, and closing the write transaction ends it |
| Store.Without | bundles/sirix-xquery/src/main/java/org/sirix/xquery/node/DBCollection.java:200 | removing a name from the listing keeps every other name and keeps the listing free of duplicates |
| Naming.DecimalString | bundles/sirix-xquery/src/main/java/org/sirix/xquery/node/DBCollection.java:254-255 | the decimal spelling is made of digits only and ends in the last digit of the number |
| Naming.DecimalStringInjective | bundles/sirix-xquery/src/main/java/org/sirix/xquery/node/DBCollection.java:254-255 | different numbers are spelled differently |
| Naming.NewResourceName | bundles/sirix-xquery/src/main/java/org/sirix/xquery/node/DBCollection.java:254-255 | the name is "resource" followed by digits only |
| Naming.NewResourceNameInjective | bundles/sirix-xquery/src/main/java/org/sirix/xquery/node/DBCollection.java:254-255 | different counts give different names |
| Naming.NewResourceNameMayBeTaken | bundles/sirix-xquery/src/main/java/org/sirix/xquery/node/DBCollection.java:254-255 | when "resource2" is the only resource left, the name chosen for the next one is "resource2" again |
| Naming.ToInt32 | bundles/sirix-xquery/src/main/java/org/sirix/xquery/node/DBCollection.java:198 | the (int) cast yields a 32-bit value congruent to the id modulo 2^32, and leaves ids in the int range alone |
| Naming.ToInt32Aliases | bundles/sirix-xquery/src/main/java/org/sirix/xquery/node/DBCollection.java:197-198 | a non-negative id of 2^32 or more reaches the resource of a smaller id |
| KeyStream.Step | bundles/sirix-xquery/src/main/java/org/sirix/xquery/stream/json/SirixJsonItemKeyStream.java:35-56 | one call adopts the next group only when there is no inner iterator or it is exhausted, and then advances by at most one key |
| KeyStream.ItemKeyStream.constructor | bundles/sirix-xquery/src/main/java/org/sirix/xquery/stream/json/SirixJsonItemKeyStream.java:27-32 | the stream starts with no inner iterator and nothing drawn |
| KeyStream.ItemKeyStream.Next | bundles/sirix-xquery/src/main/java/org/sirix/xquery/stream/json/SirixJsonItemKeyStream.java:35-46 | the iterators advance exactly as `Step` says; an item carries the key the cursor was moved to and the collection; without an item the cursor stays put |
| KeyStream.ItemKeyStream.GetItem | bundles/sirix-xquery/src/main/java/org/sirix/xquery/stream/json/SirixJsonItemKeyStream.java:48-56 | with a key left, draws it, moves the cursor to it and answers with its item; otherwise answers null and changes nothing |
| KeyStream.ItemKeyStream.Close | bundles/sirix-xquery/src/main/java/org/sirix/xquery/stream/json/SirixJsonItemKeyStream.java:58-59 | closing changes neither the stream nor the cursor |
| KeyStream.NodeCursor.MoveTo | bundles/sirix-xquery/src/main/java/org/sirix/xquery/stream/json/SirixJsonItemKeyStream.java:52 | assumed contract of the cursor: moving to a node key makes it the cursor's current key |
| KeyStream.ConsumedThenRemainingIsAll | bundles/sirix-xquery/src/main/java/org/sirix/xquery/stream/json/SirixJsonItemKeyStream.java:35-56 | the keys drawn so far followed by the keys still to come are all the keys of all groups, in order |
| KeyStream.StepDrawsNextKey | bundles/sirix-xquery/src/main/java/org/sirix/xquery/stream/json/SirixJsonItemKeyStream.java:35-56 | a call that yields a key yields the first remaining one; a call that yields nothing draws nothing |
| KeyStream.EmptyGroupAnswersNothing | bundles/sirix-xquery/src/main/java/org/sirix/xquery/stream/json/SirixJsonItemKeyStream.java:37-40 | an adopted empty group makes the call answer null instead of moving on; the next call adopts the group after it |
| KeyStream.ExhaustedStaysExhausted | bundles/sirix-xquery/src/main/java/org/sirix/xquery/stream/json/SirixJsonItemKeyStream.java:36-45 | once both iterators are exhausted, every further call answers null and changes nothing |
| KeyStream.RemainingEmptyIffExhausted | bundles/sirix-xquery/src/main/java/org/sirix/xquery/stream/json/SirixJsonItemKeyStream.java:36-45 | with no empty group left to adopt, nothing remains exactly when both iterators are exhausted |
| KeyStream.NonEmptyGroupsYieldAll | bundles/sirix-xquery/src/main/java/org/sirix/xquery/stream/json/SirixJsonItemKeyStream.java:35-56 | with no empty group left to adopt, the stream yields every remaining key in order, one per call, and ends exhausted |
| KeyStream.CountBeforeFirstNull | bundles/sirix-xquery/src/main/java/org/sirix/xquery/stream/json/SirixJsonItemKeyStream.java:35-56 | from the start, with every group non-empty, the stream yields exactly as many items as the groups hold keys, in order, then null forever |
| KeyStream.TwoGroupScenario | bundles/sirix-xquery/src/main/java/org/sirix/xquery/stream/json/SirixJsonItemKeyStream.java:35-56 | groups {5, 7} and {9} yield 5, 7 and 9, then null on the fourth call |

## Left out

- Storage internals (pages, revisions' content, commit) are not modelled; a resource is its revision timestamps plus its open transactions.
- The store's lookup of the revision for a point in time (`getRevisionNumber(Instant)`, `beginNodeReadOnlyTrx(Instant)`) is a parameter, `looked`; the floor guarantee is proved only when that answer is the floor revision or the one after it.
- `Instant` is an integer; only the "is after" comparison of timestamps is used.
- Resource names are read straight from the listing; paths and `getFileName()` are not modelled.
- `add`: the subtree parsing and ingestion into the write transaction (`SubtreeBuilder`, `CollectionParser`, `parse`) and the resource configuration flags are not modelled; the answer is the write transaction as begun.
- `add(String, SubtreeParser)` behaves as `add(SubtreeParser)` (it ignores its name argument) and is covered by `DBCollection.Collection.Add`. `add(String, XMLEventReader)` is covered by `DBCollection.Collection.AddResource` up to its resource creation and write transaction; the insertion of the parsed subtree and the move to the document root are not modelled.
- `DBCollection.Collection.Add`: that every other resource keeps its state is not one of its postconditions. It follows from its frame, which lets only the database and the new name's manager change, and from the database invariant that each manager carries its own resource's name; `DBCollection.AddLeavesOthersAlone` derives it for any other name.
- `DBCollection.Collection.Add`: the store's refusal to begin a second write transaction is modelled as the swallowed `SirixException` giving null; other store failures and the logging are not modelled.
- `DBCollection.Collection.Add`: `createResource` on a name already in use is taken to leave the database unchanged.
- Exceptions become answers: `DocumentException`, `SirixException` and an out-of-range `resources.get(0)` are the `Failed` cases of `Answer`; the wrapping of causes is not modelled.
- `getDocument()`, `getDocument(boolean)`, `getDocument(String)`, `getDocument(int, String)` and the `getDocument(Instant…)` overloads only forward their arguments to the modelled lookups with fixed defaults, and are not modelled separately.
- `getDocuments`, `delete`, `close`, `beginTransaction`, `getDocumentCount`, `getID` and `getDatabase` are not modelled: they forward to the database or build a stream of documents without further logic.
- The collection id comes from a process-wide counter (`ID_SEQUENCE`); here it is a constructor argument.
- `DBCollection.Collection.HashCode` is the database's hash code, a constant of the database object.
- The contracts of `Store.ResourceManager.BeginNodeTrx`, `BeginNodeReadOnlyTrx`, `RevertTrx` and `CloseTrx`, of `Store.Database.CreateResource`, `RemoveResource` and `ResourceName`, and of `KeyStream.NodeCursor.MoveTo` are assumptions about the store and the cursor, whose code is not part of this model. Their bodies only realise the stated behaviour on the model's state; every result about the collection and the stream rests on these assumptions.
- `KeyStream.ItemKeyStream.Next`: the item built by the item factory is modelled as the pair of the cursor's node key and the collection id; `moveTo` is taken to succeed.
- Concurrent use of a collection or a stream is not modelled.
