/**
 * The versioned store that a collection sits on, seen only through the calls the
 * collection makes: per resource, the timestamps of its committed revisions and the
 * transactions open on it; per database, the resources, the order in which they are
 * listed and the numeric ids under which they are known.
 */
module Store {
  import opened Wrappers

  /** Failures surfaced to the caller of a collection. */
  datatype Error =
    | NoSuchResource(name: string)    // the store cannot open a resource of that name
    | NoSuchRevision(revision: int)   // the store refuses to open or revert to that revision
    | MoreThanOneDocument             // an un-named lookup on a collection of several resources
    | NoDocuments                     // an un-named lookup on an empty collection

  /** An answer: a value, null, or a failure. */
  datatype Answer<T> = Found(value: T) | Null | Failed(error: Error)

  datatype Kind = ReadOnly | Write

  /** An open transaction: its kind and the revision it currently exposes. */
  datatype Trx = Trx(kind: Kind, revision: int)

  /**
   * One resource. Revision r (numbered from 1) was committed at timestamps[r - 1].
   * `running` is what the store answers to "is a write transaction running?", and
   * `writeTrx` is the handle it gives when asked for that transaction (it may answer
   * with nothing although `running` holds). `trxs` maps each open transaction's handle
   * to the transaction; `nextId` is the handle the next transaction will get.
   */
  datatype Resource = Resource(
    timestamps: seq<int>,
    running: bool,
    writeTrx: Option<nat>,
    trxs: map<nat, Trx>,
    nextId: nat)
  {
    /** The most recent revision number. */
    function Latest(): nat { |timestamps| }

    function TimestampOf(r: int): int
      requires 1 <= r <= Latest()
    {
      timestamps[r - 1]
    }

    /**
     * At least one revision; timestamps never decrease; every open transaction sits on
     * an existing revision; at most one write transaction is open, and it is the one the
     * store hands out.
     */
    ghost predicate Valid() {
      && |timestamps| >= 1
      && (forall i, j :: 0 <= i <= j < |timestamps| ==> timestamps[i] <= timestamps[j])
      && (forall id :: id in trxs ==> id < nextId && 1 <= trxs[id].revision <= |timestamps|)
      && (forall id :: id in trxs && trxs[id].kind == Write ==> writeTrx == Some(id))
      && (writeTrx.Some? ==> running && writeTrx.value in trxs && trxs[writeTrx.value].kind == Write)
    }
  }

  /** A resource freshly created with one revision committed at `now`. */
  function NewResource(now: int): (rs: Resource)
    ensures rs.Valid() && rs.Latest() == 1 && rs.trxs == map[]
  {
    Resource([now], false, None, map[], 0)
  }

  /** Beginning a write transaction: it sits on the most recent revision. */
  function BeginWrite(rs: Resource): (r: (Resource, nat))
    requires rs.Valid() && rs.writeTrx.None?
    ensures r.0.Valid() && r.0.timestamps == rs.timestamps
    ensures r.1 !in rs.trxs && r.0.writeTrx == Some(r.1)
  {
    var id := rs.nextId;
    (rs.(running := true, writeTrx := Some(id), trxs := rs.trxs[id := Trx(Write, rs.Latest())], nextId := id + 1), id)
  }

  /** Beginning a read-only transaction bound to revision `rev`. */
  function BeginReadOnly(rs: Resource, rev: int): (r: (Resource, nat))
    requires rs.Valid() && 1 <= rev <= rs.Latest()
    ensures r.0.Valid() && r.0.timestamps == rs.timestamps
    ensures r.1 !in rs.trxs && r.0.writeTrx == rs.writeTrx
  {
    var id := rs.nextId;
    (rs.(trxs := rs.trxs[id := Trx(ReadOnly, rev)], nextId := id + 1), id)
  }

  /** Reverting transaction `id` to revision `rev`: it now exposes `rev`. */
  function RevertTo(rs: Resource, id: nat, rev: int): (r: Resource)
    requires rs.Valid() && id in rs.trxs && 1 <= rev <= rs.Latest()
    ensures r.Valid() && r.timestamps == rs.timestamps && r.trxs.Keys == rs.trxs.Keys
  {
    rs.(trxs := rs.trxs[id := rs.trxs[id].(revision := rev)])
  }

  /** Closing transaction `id`; closing the write transaction ends it. */
  function Close(rs: Resource, id: nat): (r: Resource)
    requires rs.Valid() && id in rs.trxs
    ensures r.Valid() && r.timestamps == rs.timestamps && r.trxs.Keys == rs.trxs.Keys - {id}
  {
    if rs.writeTrx == Some(id) then rs.(running := false, writeTrx := None, trxs := rs.trxs - {id})
    else rs.(trxs := rs.trxs - {id})
  }

  /**
   * The greatest revision number whose timestamp is at most `t`, or 0 when every
   * revision is newer than `t`.
   */
  function Floor(ts: seq<int>, t: int): (f: nat)
    ensures f <= |ts|
    ensures f > 0 ==> ts[f - 1] <= t
    ensures forall k :: f <= k < |ts| ==> ts[k] > t
  {
    if |ts| == 0 then 0
    else if ts[|ts| - 1] <= t then |ts|
    else Floor(ts[..|ts| - 1], t)
  }

  ghost predicate Distinct<T>(s: seq<T>) {
    forall i, j :: 0 <= i < j < |s| ==> s[i] != s[j]
  }

  /** `s` with every occurrence of `x` taken out, order kept. */
  function Without(s: seq<string>, x: string): (r: seq<string>)
    ensures forall y :: y in r <==> y in s && y != x
    ensures Distinct(s) ==> Distinct(r)
  {
    if s == [] then []
    else if s[0] == x then Without(s[1..], x)
    else
      var rest := Without(s[1..], x);
      assert Distinct(s) ==> s[0] !in s[1..] && Distinct(s[1..]);
      DistinctPrepend(s[0], rest);
      [s[0]] + rest
  }

  lemma DistinctPrepend(a: string, r: seq<string>)
    ensures Distinct(r) && a !in r ==> Distinct([a] + r)
  {
    if Distinct(r) && a !in r {
      forall i, j | 0 <= i < j < |[a] + r| ensures ([a] + r)[i] != ([a] + r)[j] {
        if i > 0 {
          assert ([a] + r)[i] == r[i - 1];
        }
        assert ([a] + r)[j] == r[j - 1];
      }
    }
  }

  /**
   * The manager of one resource, as the collection reaches it after opening the
   * resource by name; every transaction call goes through it.
   */
  class ResourceManager {
    /** The name of the resource it manages. */
    const name: string
    var state: Resource

    ghost predicate Valid()
      reads this
    {
      state.Valid()
    }

    constructor (name: string, now: int)
      ensures Valid() && this.name == name && state == NewResource(now)
    {
      this.name := name;
      state := NewResource(now);
    }

    /** getMostRecentRevisionNumber */
    function MostRecentRevisionNumber(): nat
      reads this
    {
      state.Latest()
    }

    /** hasRunningNodeWriteTrx */
    function HasRunningNodeWriteTrx(): bool
      reads this
    {
      state.running
    }

    /** getNodeWriteTrx: the running write transaction, if the store hands it out */
    function GetNodeWriteTrx(): Option<nat>
      reads this
    {
      state.writeTrx
    }

    /** getRevisionNumber of an open transaction */
    function RevisionNumber(id: nat): int
      reads this
      requires id in state.trxs
    {
      state.trxs[id].revision
    }

    /** getRevisionTimestamp of an open transaction */
    function RevisionTimestamp(id: nat): int
      reads this
      requires Valid() && id in state.trxs
    {
      state.TimestampOf(state.trxs[id].revision)
    }

    /** beginNodeTrx: the store refuses while a write transaction is present. */
    method BeginNodeTrx() returns (id: nat)
      requires Valid() && state.writeTrx.None?
      modifies this
      ensures Valid() && (state, id) == BeginWrite(old(state))
    {
      var p := BeginWrite(state);
      state, id := p.0, p.1;
    }

    /** beginNodeReadOnlyTrx(revision): the store refuses a revision it does not have. */
    method BeginNodeReadOnlyTrx(rev: int) returns (r: Answer<nat>)
      requires Valid()
      modifies this
      ensures Valid()
      ensures 1 <= rev <= old(state).Latest() ==> r.Found? && (state, r.value) == BeginReadOnly(old(state), rev)
      ensures !(1 <= rev <= old(state).Latest()) ==> r == Failed(NoSuchRevision(rev)) && state == old(state)
    {
      if !(1 <= rev <= state.Latest()) {
        return Failed(NoSuchRevision(rev));
      }
      var p := BeginReadOnly(state, rev);
      state := p.0;
      return Found(p.1);
    }

    /**
     * revertTo(revision) on an open transaction, answering with that transaction; the
     * store refuses a revision it does not have.
     */
    method RevertTrx(id: nat, rev: int) returns (r: Answer<nat>)
      requires Valid() && id in state.trxs
      modifies this
      ensures Valid()
      ensures 1 <= rev <= old(state).Latest() ==> r == Found(id) && state == RevertTo(old(state), id, rev)
      ensures !(1 <= rev <= old(state).Latest()) ==> r == Failed(NoSuchRevision(rev)) && state == old(state)
    {
      if !(1 <= rev <= state.Latest()) {
        return Failed(NoSuchRevision(rev));
      }
      state := RevertTo(state, id, rev);
      return Found(id);
    }

    /** close() on an open transaction */
    method CloseTrx(id: nat)
      requires Valid() && id in state.trxs
      modifies this
      ensures Valid() && state == Close(old(state), id)
    {
      state := Close(state, id);
    }
  }

  /**
   * A database: the manager of each resource by name, the order in which it lists the
   * resources, and the ids under which it knows them. Each resource has its own manager,
   * which knows the resource's name. `hash` stands for the database
   * object's hash code.
   */
  class Database {
    const hash: int
    var managers: map<string, ResourceManager>
    var listing: seq<string>
    var ids: map<int, string>
    var nextResourceId: int

    ghost predicate Valid()
      reads this, managers.Values
    {
      && (forall n :: n in managers ==> managers[n].Valid())
      && (forall n :: n in managers ==> managers[n].name == n)
      && Distinct(listing)
      && (forall n :: n in listing <==> n in managers)
      && (forall id :: id in ids ==> id < nextResourceId && ids[id] in managers)
    }

    constructor (hash: int)
      ensures Valid() && this.hash == hash
      ensures managers == map[] && listing == [] && ids == map[]
    {
      this.hash := hash;
      managers, listing, ids, nextResourceId := map[], [], map[], 0;
    }

    /** getResourceName(id): the name known under `id`, or nothing. */
    function ResourceName(id: int): (r: Option<string>)
      reads this
      ensures r.Some? <==> id in ids
      ensures r.Some? ==> r.value == ids[id]
    {
      if id in ids then Some(ids[id]) else None
    }

    /** removeResource: the resource, its place in the listing and its ids go. */
    method RemoveResource(name: string)
      requires Valid() && name in managers
      modifies this
      ensures Valid()
      ensures managers == old(managers) - {name}
      ensures listing == Without(old(listing), name)
      ensures ids == map id | id in old(ids) && old(ids)[id] != name :: old(ids)[id]
      ensures nextResourceId == old(nextResourceId)
    {
      managers := managers - {name};
      listing := Without(listing, name);
      ids := map id | id in ids && ids[id] != name :: ids[id];
    }

    /**
     * createResource: a new resource with one revision committed at `now`, listed last
     * and known under a new id. A name already in use leaves the database as it is.
     */
    method CreateResource(name: string, now: int) returns (created: bool)
      requires Valid()
      modifies this
      ensures Valid() && name in managers
      ensures created <==> name !in old(managers)
      ensures forall m :: m in old(managers) ==> m in managers && managers[m] == old(managers[m])
      ensures !created ==> managers == old(managers) && listing == old(listing) && ids == old(ids)
      ensures !created ==> nextResourceId == old(nextResourceId)
      ensures created ==> fresh(managers[name]) && managers[name].state == NewResource(now)
      ensures created ==> managers == old(managers)[name := managers[name]]
      ensures created ==> listing == old(listing) + [name]
      ensures created ==> ids == old(ids)[old(nextResourceId) := name]
      ensures created ==> nextResourceId == old(nextResourceId) + 1
    {
      if name in managers {
        created := false;
        return;
      }
      created := true;
      var manager := new ResourceManager(name, now);
      managers := managers[name := manager];
      listing := listing + [name];
      ids := ids[nextResourceId := name];
      nextResourceId := nextResourceId + 1;
    }
  }
}
