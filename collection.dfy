/**
 * The collection over a database: document lookup by point in time or by revision
 * number, removal of a resource by id, and the naming of an added resource. Each lookup
 * calls the store step by step and is proved to do what the Resolution module specifies.
 */
module DBCollection {
  import opened Wrappers
  import opened Store
  import opened Resolution
  import opened Naming

  /** A document handle: the transaction it wraps, on which resource, in which collection. */
  datatype Document = Document(resource: string, trx: nat, collection: int)

  /** The collection-level answer for a resource-level one. */
  function Attach(a: Answer<nat>, resource: string, collection: int): (r: Answer<Document>)
    ensures a.Found? <==> r.Found?
    ensures r.Found? ==> r.value == Document(resource, a.value, collection)
    ensures a.Null? <==> r.Null?
    ensures a.Failed? ==> r == Failed(a.error)
  {
    match a
    case Found(trx) => Found(Document(resource, trx, collection))
    case Null => Null
    case Failed(e) => Failed(e)
  }

  class Collection {
    /** The collection's name; also the resource looked up when no name is given. */
    const name: string
    const db: Database
    /** The collection's unique id, taken from the process-wide sequence. */
    const id: int

    constructor (name: string, db: Database, id: int)
      ensures this.name == name && this.db == db && this.id == id
    {
      this.name, this.db, this.id := name, db, id;
    }

    /** Two collections are equal when they sit on the same database. */
    predicate Equals(other: Collection?)
      ensures Equals(other) <==> other != null && other.db == db
    {
      this == other || (other != null && db == other.db)
    }

    /** hashCode: the database's hash code, so that equal collections hash alike. */
    function HashCode(): (h: int)
      ensures h == db.hash
    {
      db.hash
    }

    /** The lease step shared by both lookups (updatable case). */
    method LeaseWriteTrx(resource: ResourceManager) returns (w: nat)
      requires resource.Valid()
      modifies resource
      ensures resource.Valid() && (resource.state, w) == LeaseWrite(old(resource.state))
    {
      if resource.HasRunningNodeWriteTrx() {
        var optionalWriteTrx := resource.GetNodeWriteTrx();
        if optionalWriteTrx.Some? {
          w := optionalWriteTrx.value;
        } else {
          w := resource.BeginNodeTrx();
        }
      } else {
        w := resource.BeginNodeTrx();
      }
    }

    /**
     * getDocument(Instant, String, boolean). `looked` is the store's answer to the
     * timestamp lookup for `pointInTime` on that resource.
     */
    method GetDocumentAtTime(resName: string, pointInTime: int, looked: int, updatable: bool)
      returns (r: Answer<Document>)
      requires db.Valid()
      requires resName in db.managers ==> 1 <= looked <= db.managers[resName].state.Latest()
      modifies if resName in db.managers then {db.managers[resName]} else {}
      ensures db.Valid()
      ensures resName !in db.managers ==> r == Failed(NoSuchResource(resName))
      ensures resName in db.managers ==>
        var o := AtTime(old(db.managers[resName].state), pointInTime, looked, updatable);
        db.managers[resName].state == o.state && r == Attach(o.answer, resName, id)
    {
      if resName !in db.managers {
        return Failed(NoSuchResource(resName));
      }
      var resource := db.managers[resName];
      var trx: Answer<nat>;
      if updatable {
        trx := WritableAtTimeSteps(resource, pointInTime, looked);
      } else {
        trx := ReadOnlyAtTimeSteps(resource, pointInTime, looked);
      }
      return Attach(trx, resName, id);
    }

    /** The updatable branch of getDocumentInternal(String, Instant, boolean). */
    method WritableAtTimeSteps(resource: ResourceManager, pointInTime: int, looked: int) returns (r: Answer<nat>)
      requires resource.Valid() && 1 <= looked <= resource.state.Latest()
      modifies resource
      ensures resource.Valid()
      ensures Outcome(resource.state, r) == WritableAtTime(old(resource.state), pointInTime, looked)
    {
      var trx := LeaseWriteTrx(resource);
      var revision := looked;
      if revision < resource.MostRecentRevisionNumber() {
        r := RevertForTimeSteps(resource, trx, pointInTime, revision);
      } else {
        r := Found(trx);
      }
    }

    /** The revert step of the updatable branch, when the looked-up revision is not the most recent. */
    method RevertForTimeSteps(resource: ResourceManager, trx: nat, pointInTime: int, revision: int) returns (r: Answer<nat>)
      requires resource.Valid() && trx in resource.state.trxs && 1 <= revision < resource.state.Latest()
      modifies resource
      ensures resource.Valid()
      ensures Outcome(resource.state, r) == RevertForTime(old(resource.state), trx, pointInTime, revision)
    {
      var reverted := resource.RevertTrx(trx, revision);
      if resource.RevisionTimestamp(reverted.value) > pointInTime {
        if revision - 1 >= 1 {
          reverted := resource.RevertTrx(trx, revision - 1);
        } else {
          resource.CloseTrx(trx);
          return Null;
        }
      }
      return Found(trx);
    }

    /** The read-only branch of getDocumentInternal(String, Instant, boolean). */
    method ReadOnlyAtTimeSteps(resource: ResourceManager, pointInTime: int, looked: int) returns (r: Answer<nat>)
      requires resource.Valid() && 1 <= looked <= resource.state.Latest()
      modifies resource
      ensures resource.Valid()
      ensures Outcome(resource.state, r) == ReadOnlyAtTime(old(resource.state), pointInTime, looked)
    {
      var begun := resource.BeginNodeReadOnlyTrx(looked);
      var trx := begun.value;
      if resource.RevisionTimestamp(trx) > pointInTime {
        var revision := resource.RevisionNumber(trx);
        if revision > 1 {
          resource.CloseTrx(trx);
          begun := resource.BeginNodeReadOnlyTrx(revision - 1);
          trx := begun.value;
        } else {
          resource.CloseTrx(trx);
          return Null;
        }
      }
      return Found(trx);
    }

    /** getDocument(int, String, boolean). */
    method GetDocumentAtRevision(resName: string, revision: int, updatable: bool)
      returns (r: Answer<Document>)
      requires db.Valid()
      modifies if resName in db.managers then {db.managers[resName]} else {}
      ensures db.Valid()
      ensures resName !in db.managers ==> r == Failed(NoSuchResource(resName))
      ensures resName in db.managers ==>
        var o := AtRevision(old(db.managers[resName].state), revision, updatable);
        db.managers[resName].state == o.state && r == Attach(o.answer, resName, id)
    {
      if resName !in db.managers {
        return Failed(NoSuchResource(resName));
      }
      var resource := db.managers[resName];
      var version := if revision == -1 then resource.MostRecentRevisionNumber() else revision;
      var trx: Answer<nat>;
      if updatable {
        trx := WritableAtVersionSteps(resource, version);
      } else {
        trx := ReadOnlyAtVersionSteps(resource, version);
      }
      return Attach(trx, resName, id);
    }

    /** The updatable branch of getDocumentInternal(String, int, boolean). */
    method WritableAtVersionSteps(resource: ResourceManager, version: int) returns (r: Answer<nat>)
      requires resource.Valid()
      modifies resource
      ensures resource.Valid()
      ensures Outcome(resource.state, r) == WritableAtVersion(old(resource.state), version)
    {
      var trx := LeaseWriteTrx(resource);
      if version < resource.MostRecentRevisionNumber() {
        r := resource.RevertTrx(trx, version);
      } else {
        r := Found(trx);
      }
    }

    /** The read-only branch of getDocumentInternal(String, int, boolean). */
    method ReadOnlyAtVersionSteps(resource: ResourceManager, version: int) returns (r: Answer<nat>)
      requires resource.Valid()
      modifies resource
      ensures resource.Valid()
      ensures Outcome(resource.state, r) == ReadOnlyAtVersion(old(resource.state), version)
    {
      r := resource.BeginNodeReadOnlyTrx(version);
    }

    /**
     * getDocument(int): the one resource of the collection, read-only, at `revision`
     * (-1 for the most recent). Refused on a collection of several resources.
     */
    method GetSoleDocument(revision: int) returns (r: Answer<Document>)
      requires db.Valid()
      modifies if |db.listing| == 1 && db.listing[0] in db.managers then {db.managers[db.listing[0]]} else {}
      ensures db.Valid()
      ensures |db.listing| > 1 ==> r == Failed(MoreThanOneDocument)
      ensures |db.listing| == 0 ==> r == Failed(NoDocuments)
      ensures |db.listing| == 1 ==>
        var resName := db.listing[0];
        var o := AtRevision(old(db.managers[resName].state), revision, false);
        db.managers[resName].state == o.state && r == Attach(o.answer, resName, id)
    {
      var resources := db.listing;
      if |resources| > 1 {
        return Failed(MoreThanOneDocument);
      }
      if |resources| == 0 {
        return Failed(NoDocuments);
      }
      var resName := resources[0];
      assert resName in db.managers;
      var manager := db.managers[resName];
      var version := if revision == -1 then manager.MostRecentRevisionNumber() else revision;
      var rtx := ReadOnlyAtVersionSteps(manager, version);
      return Attach(rtx, resName, id);
    }

    /** getDocument(int, boolean): the one resource of the collection at `revision`. */
    method GetSoleDocumentAt(revision: int, updatable: bool) returns (r: Answer<Document>)
      requires db.Valid()
      modifies if |db.listing| == 1 && db.listing[0] in db.managers then {db.managers[db.listing[0]]} else {}
      ensures db.Valid()
      ensures |db.listing| > 1 ==> r == Failed(MoreThanOneDocument)
      ensures |db.listing| == 0 ==> r == Failed(NoDocuments)
      ensures |db.listing| == 1 ==>
        var resName := db.listing[0];
        var o := AtRevision(old(db.managers[resName].state), revision, updatable);
        db.managers[resName].state == o.state && r == Attach(o.answer, resName, id)
    {
      var resources := db.listing;
      if |resources| > 1 {
        return Failed(MoreThanOneDocument);
      }
      if |resources| == 0 {
        return Failed(NoDocuments);
      }
      assert resources[0] in db.managers;
      r := GetDocumentAtRevision(resources[0], revision, updatable);
    }

    /**
     * remove(long): a negative id, or one under which no resource is known after the
     * narrowing to int, changes nothing; otherwise exactly that resource is removed.
     */
    method Remove(documentID: int)
      requires -0x8000_0000_0000_0000 <= documentID < 0x8000_0000_0000_0000
      requires db.Valid()
      modifies db
      ensures db.Valid()
      ensures documentID < 0 || ToInt32(documentID) !in old(db.ids) ==> unchanged(db)
      ensures documentID >= 0 && ToInt32(documentID) in old(db.ids) ==>
        var gone := old(db.ids)[ToInt32(documentID)];
        && db.managers == old(db.managers) - {gone}
        && db.listing == Without(old(db.listing), gone)
        && db.ids == (map k | k in old(db.ids) && old(db.ids)[k] != gone :: old(db.ids)[k])
        && db.nextResourceId == old(db.nextResourceId)
    {
      if documentID >= 0 {
        var resource := db.ResourceName(ToInt32(documentID));
        if resource.Some? {
          db.RemoveResource(resource.value);
        }
      }
    }

    /**
     * add(SubtreeParser): a resource named after the current count is created and a
     * write transaction is begun on it, as `AddResource` says for that name.
     */
    method Add(now: int) returns (r: Answer<Document>)
      requires db.Valid()
      modifies db, if NewResourceName(|db.listing|) in db.managers then {db.managers[NewResourceName(|db.listing|)]} else {}
      ensures db.Valid()
      ensures var n := NewResourceName(|old(db.listing)|);
        var o := BeginUnlessPresent(if n in old(db.managers) then old(db.managers[n].state) else NewResource(now));
        n in db.managers && db.managers[n].state == o.state && r == Attach(o.answer, n, id)
      ensures forall m :: m in old(db.managers) ==> m in db.managers && db.managers[m] == old(db.managers[m])
      ensures var n := NewResourceName(|old(db.listing)|);
        n !in old(db.managers) ==>
          && fresh(db.managers[n]) && db.managers.Keys == old(db.managers).Keys + {n}
          && db.listing == old(db.listing) + [n]
          && db.ids == old(db.ids)[old(db.nextResourceId) := n]
          && db.nextResourceId == old(db.nextResourceId) + 1
      ensures var n := NewResourceName(|old(db.listing)|);
        n in old(db.managers) ==>
          && db.managers == old(db.managers) && db.listing == old(db.listing)
          && db.ids == old(db.ids) && db.nextResourceId == old(db.nextResourceId)
    {
      r := AddResource(NewResourceName(|db.listing|), now);
    }

    /**
     * The resource `resName` is created (a name already in use is left as it is) and a
     * write transaction is begun on it; when the store refuses that transaction the
     * failure is swallowed and the answer is null. `now` is the commit time of the new
     * resource's first revision.
     */
    method AddResource(resName: string, now: int) returns (r: Answer<Document>)
      requires db.Valid()
      modifies db, if resName in db.managers then {db.managers[resName]} else {}
      ensures db.Valid()
      ensures var o := BeginUnlessPresent(if resName in old(db.managers) then old(db.managers[resName].state) else NewResource(now));
        resName in db.managers && db.managers[resName].state == o.state && r == Attach(o.answer, resName, id)
      ensures forall m :: m in old(db.managers) ==> m in db.managers && db.managers[m] == old(db.managers[m])
      ensures resName !in old(db.managers) ==>
        && fresh(db.managers[resName]) && db.managers.Keys == old(db.managers).Keys + {resName}
        && db.listing == old(db.listing) + [resName]
        && db.ids == old(db.ids)[old(db.nextResourceId) := resName]
        && db.nextResourceId == old(db.nextResourceId) + 1
      ensures resName in old(db.managers) ==>
        && db.managers == old(db.managers) && db.listing == old(db.listing)
        && db.ids == old(db.ids) && db.nextResourceId == old(db.nextResourceId)
    {
      var created := db.CreateResource(resName, now);
      var wtx := BeginWriteUnlessPresent(resName);
      r := Attach(wtx, resName, id);
    }

    /**
     * The write transaction `add` begins on the resource it created; a refusal of the
     * store because one is present is swallowed into a null answer.
     */
    method BeginWriteUnlessPresent(resName: string) returns (r: Answer<nat>)
      requires db.Valid() && resName in db.managers
      modifies db.managers[resName]
      ensures db.Valid()
      ensures Outcome(db.managers[resName].state, r) == BeginUnlessPresent(old(db.managers[resName].state))
      ensures forall m :: m in db.managers && m != resName ==> db.managers[m].state == old(db.managers[m].state)
    {
      var manager := db.managers[resName];
      if manager.GetNodeWriteTrx().Some? {
        return Null;
      }
      var wtx := manager.BeginNodeTrx();
      return Found(wtx);
    }
  }

  /**
   * Adding a resource leaves every other resource as it was: its name keeps the same
   * manager, and that manager's state is untouched.
   */
  method AddLeavesOthersAlone(c: Collection, now: int, other: string) returns (r: Answer<Document>)
    requires c.db.Valid() && other in c.db.managers && other != NewResourceName(|c.db.listing|)
    modifies c.db, c.db.managers.Values
    ensures other in c.db.managers && c.db.managers[other] == old(c.db.managers[other])
    ensures c.db.managers[other].state == old(c.db.managers[other].state)
  {
    var manager := c.db.managers[other];
    r := c.Add(now);
    assert c.db.managers[other] == manager;
  }

  /** Equality of collections is an equivalence, and equal collections hash alike. */
  lemma EqualsIsEquivalence(a: Collection, b: Collection, c: Collection)
    ensures a.Equals(a)
    ensures a.Equals(b) ==> b.Equals(a)
    ensures a.Equals(b) && b.Equals(c) ==> a.Equals(c)
    ensures a.Equals(b) ==> a.HashCode() == b.HashCode()
  {
  }

  /**
   * Two updatable lookups of the same resource in a row answer with the same write
   * transaction.
   */
  lemma UpdatableLookupsShareTrx(rs: Resource, r1: int, r2: int, resource: string, collection: int)
    requires rs.Valid()
    requires 1 <= SelectVersion(r1, rs.Latest()) && 1 <= SelectVersion(r2, rs.Latest())
    ensures var o1 := AtRevision(rs, r1, true); var o2 := AtRevision(o1.state, r2, true);
      && Attach(o1.answer, resource, collection).Found?
      && Attach(o1.answer, resource, collection) == Attach(o2.answer, resource, collection)
  {
    var o1 := AtRevision(rs, r1, true);
    WritableAtRevision(rs, r1);
    WritableAtRevision(o1.state, r2);
  }
}
