/**
 * What a document request does to one resource, as values: the lease of a write
 * transaction, resolution by point in time and resolution by revision number. Each
 * function returns the resource's new state and the answer (the handle of the
 * transaction the document wraps, null, or a failure). The collection's methods are
 * proved to do exactly this; the lemmas below say what it guarantees.
 */
module Resolution {
  import opened Wrappers
  import opened Store

  datatype Outcome = Outcome(state: Resource, answer: Answer<nat>)

  /** The revision the found transaction exposes after the request. */
  function Exposed(o: Outcome): int
    requires o.answer.Found? && o.answer.value in o.state.trxs
  {
    o.state.trxs[o.answer.value].revision
  }

  /** `r` is the newest revision committed no later than `t`. */
  ghost predicate IsFloor(ts: seq<int>, t: int, r: int) {
    1 <= r <= |ts| && ts[r - 1] <= t && forall k :: r <= k < |ts| ==> ts[k] > t
  }

  /**
   * The store's own timestamp lookup is not part of this model. Its answer `looked` is
   * taken as a parameter; where the floor guarantee is stated, it is stated under this
   * assumption: the lookup gives the floor revision or the one after it.
   */
  ghost predicate NearFloor(ts: seq<int>, t: int, looked: int) {
    looked == Floor(ts, t) || looked == Floor(ts, t) + 1
  }

  /**
   * The lease step for an updatable request: the running write transaction when the
   * store hands one out, otherwise a newly begun one.
   */
  function LeaseWrite(rs: Resource): (r: (Resource, nat))
    requires rs.Valid()
    ensures r.0.Valid() && r.0.timestamps == rs.timestamps
    ensures r.0.writeTrx == Some(r.1) && r.1 in r.0.trxs
    ensures rs.writeTrx.Some? ==> r == (rs, rs.writeTrx.value)
    ensures rs.writeTrx.None? ==>
      && r.1 == rs.nextId && r.1 !in rs.trxs
      && r.0.trxs == rs.trxs[r.1 := Trx(Write, rs.Latest())]
      && r.0.nextId == rs.nextId + 1
  {
    if rs.running then
      if rs.writeTrx.Some? then (rs, rs.writeTrx.value)
      else BeginWrite(rs)
    else BeginWrite(rs)
  }

  /** Updatable request by point in time; `looked` is the store's getRevisionNumber(t). */
  function WritableAtTime(rs: Resource, t: int, looked: int): (o: Outcome)
    requires rs.Valid() && 1 <= looked <= rs.Latest()
    ensures o.state.Valid() && o.state.timestamps == rs.timestamps
    ensures o.answer.Found? ==> o.answer.value in o.state.trxs
    ensures !o.answer.Failed?
    ensures o.state.nextId <= rs.nextId + 1
  {
    var (s1, w) := LeaseWrite(rs);
    if looked < s1.Latest() then RevertForTime(s1, w, t, looked)
    else Outcome(s1, Found(w))
  }

  /**
   * The revert step of an updatable request by point in time, on the leased write
   * transaction `w` and a looked-up revision older than the most recent one.
   */
  function RevertForTime(s1: Resource, w: nat, t: int, looked: int): (o: Outcome)
    requires s1.Valid() && w in s1.trxs && 1 <= looked < s1.Latest()
    ensures o.state.Valid() && o.state.timestamps == s1.timestamps && o.state.nextId == s1.nextId
    ensures o.answer.Found? ==> o.answer == Found(w) && w in o.state.trxs
    ensures o.answer.Null? ==> w !in o.state.trxs
    ensures !o.answer.Failed?
  {
    var s2 := RevertTo(s1, w, looked);
    if s2.TimestampOf(s2.trxs[w].revision) > t then
      if looked - 1 >= 1 then Outcome(RevertTo(s2, w, looked - 1), Found(w))
      else Outcome(Close(s2, w), Null)
    else Outcome(s2, Found(w))
  }

  /** Read-only request by point in time; `looked` is the revision the store opens at t. */
  function ReadOnlyAtTime(rs: Resource, t: int, looked: int): (o: Outcome)
    requires rs.Valid() && 1 <= looked <= rs.Latest()
    ensures o.state.Valid() && o.state.timestamps == rs.timestamps
    ensures o.answer.Found? ==> o.answer.value in o.state.trxs && o.answer.value !in rs.trxs
    ensures !o.answer.Failed?
    ensures o.state.writeTrx == rs.writeTrx && o.state.running == rs.running
    ensures forall id :: id in rs.trxs ==> id in o.state.trxs && o.state.trxs[id] == rs.trxs[id]
  {
    var (s1, id) := BeginReadOnly(rs, looked);
    if s1.TimestampOf(s1.trxs[id].revision) > t then
      var revision := s1.trxs[id].revision;
      if revision > 1 then
        var (s2, id2) := BeginReadOnly(Close(s1, id), revision - 1);
        Outcome(s2, Found(id2))
      else Outcome(Close(s1, id), Null)
    else Outcome(s1, Found(id))
  }

  /** getDocumentInternal(String, Instant, boolean) on one resource. */
  function AtTime(rs: Resource, t: int, looked: int, updatable: bool): (o: Outcome)
    requires rs.Valid() && 1 <= looked <= rs.Latest()
    ensures o.state.Valid() && o.state.timestamps == rs.timestamps
    ensures o.answer.Found? ==> o.answer.value in o.state.trxs
    ensures !o.answer.Failed?
  {
    if updatable then WritableAtTime(rs, t, looked) else ReadOnlyAtTime(rs, t, looked)
  }

  /** The version a revision request asks for: -1 stands for the most recent one. */
  function SelectVersion(revision: int, latest: nat): (v: int)
    ensures revision == -1 ==> v == latest
    ensures revision != -1 ==> v == revision
  {
    if revision == -1 then latest else revision
  }

  /** getDocumentInternal(String, int, boolean) on one resource. */
  function AtRevision(rs: Resource, revision: int, updatable: bool): (o: Outcome)
    requires rs.Valid()
    ensures o.state.Valid() && o.state.timestamps == rs.timestamps
    ensures o.answer.Found? ==> o.answer.value in o.state.trxs
    ensures !o.answer.Null?
  {
    var version := SelectVersion(revision, rs.Latest());
    if updatable then WritableAtVersion(rs, version) else ReadOnlyAtVersion(rs, version)
  }

  /** The updatable branch of a request by revision, for the selected version. */
  function WritableAtVersion(rs: Resource, version: int): (o: Outcome)
    requires rs.Valid()
    ensures o.state.Valid() && o.state.timestamps == rs.timestamps
    ensures o.answer.Found? ==> o.answer.value in o.state.trxs
    ensures !o.answer.Null?
  {
    var (s1, w) := LeaseWrite(rs);
    if version < s1.Latest() then
      if 1 <= version then Outcome(RevertTo(s1, w, version), Found(w))
      else Outcome(s1, Failed(NoSuchRevision(version)))
    else Outcome(s1, Found(w))
  }

  /** The read-only branch of a request by revision, for the selected version. */
  function ReadOnlyAtVersion(rs: Resource, version: int): (o: Outcome)
    requires rs.Valid()
    ensures o.state.Valid() && o.state.timestamps == rs.timestamps
    ensures o.answer.Found? ==> o.answer.value in o.state.trxs
    ensures !o.answer.Null?
  {
    if 1 <= version <= rs.Latest() then
      var (s1, id) := BeginReadOnly(rs, version);
      Outcome(s1, Found(id))
    else Outcome(rs, Failed(NoSuchRevision(version)))
  }

  /**
   * The write transaction `add` asks for on the resource it created: refused by the store
   * while one is present, which `add` turns into a null answer; otherwise newly begun.
   */
  function BeginUnlessPresent(rs: Resource): (o: Outcome)
    requires rs.Valid()
    ensures o.state.Valid() && o.state.timestamps == rs.timestamps
    ensures o.answer.Null? <==> rs.writeTrx.Some?
    ensures o.answer.Null? ==> o.state == rs
    ensures !o.answer.Failed?
    ensures o.answer.Found? ==>
      && o.answer.value !in rs.trxs && o.state.writeTrx == Some(o.answer.value)
      && o.state.trxs == rs.trxs[o.answer.value := Trx(Write, rs.Latest())]
  {
    if rs.writeTrx.Some? then Outcome(rs, Null)
    else
      var (s1, w) := BeginWrite(rs);
      Outcome(s1, Found(w))
  }

  /**
   * On a newly created resource, the write transaction is the resource's first
   * transaction and exposes its one revision.
   */
  lemma BeginOnNewResource(now: int)
    ensures var o := BeginUnlessPresent(NewResource(now));
      o.answer == Found(0) && o.state.trxs == map[0 := Trx(Write, 1)] && o.state.running
  {
  }

  // ---------------------------------------------------------------------------
  // The lease

  /**
   * Two updatable leases in a row hand out the same write transaction, and the second
   * changes nothing.
   */
  lemma SuccessiveLeasesShareTrx(rs: Resource)
    requires rs.Valid()
    ensures var (s1, w1) := LeaseWrite(rs); LeaseWrite(s1) == (s1, w1)
  {
  }

  /** Two read-only requests in a row never share a transaction. */
  lemma ReadOnlyRequestsAreIndependent(rs: Resource, r1: int, r2: int)
    requires rs.Valid()
    ensures var o1 := AtRevision(rs, r1, false); var o2 := AtRevision(o1.state, r2, false);
      o1.answer.Found? && o2.answer.Found? ==> o1.answer.value != o2.answer.value
  {
  }

  /**
   * No request ever leaves two write transactions open on a resource, and an updatable
   * request begins at most one transaction: every write transaction open afterwards was
   * open before or is the one handle a begin hands out.
   */
  lemma AtMostOneWriteTrxBegun(rs: Resource, t: int, looked: int, revision: int)
    requires rs.Valid() && 1 <= looked <= rs.Latest()
    ensures var o := AtTime(rs, t, looked, true);
      forall id :: id in o.state.trxs && o.state.trxs[id].kind == Write ==> id in rs.trxs || id == rs.nextId
    ensures var o := AtRevision(rs, revision, true);
      forall id :: id in o.state.trxs && o.state.trxs[id].kind == Write ==> id in rs.trxs || id == rs.nextId
  {
  }

  // ---------------------------------------------------------------------------
  // Resolution by point in time

  /** In a resource whose timestamps never decrease, no revision is old enough exactly when t precedes the first. */
  lemma FloorZeroIffBeforeFirst(rs: Resource, t: int)
    requires rs.Valid()
    ensures Floor(rs.timestamps, t) == 0 <==> t < rs.timestamps[0]
    ensures Floor(rs.timestamps, t) > 0 ==> IsFloor(rs.timestamps, t, Floor(rs.timestamps, t))
  {
    var f := Floor(rs.timestamps, t);
    if f > 0 {
      assert rs.timestamps[0] <= rs.timestamps[f - 1];
    }
  }

  /**
   * The three outcomes of a read-only request by point in time: a revision newer than
   * t that is not the first is replaced by a fresh read-only transaction one revision
   * back; on the first revision the transaction is closed and the answer is null;
   * otherwise the opened transaction is the answer.
   */
  lemma ReadOnlyAtTimeCases(rs: Resource, t: int, looked: int)
    requires rs.Valid() && 1 <= looked <= rs.Latest()
    ensures var o := AtTime(rs, t, looked, false);
      && (rs.TimestampOf(looked) > t && looked > 1 ==>
            o.answer == Found(rs.nextId + 1) && o.state.trxs == rs.trxs[rs.nextId + 1 := Trx(ReadOnly, looked - 1)])
      && (rs.TimestampOf(looked) > t && looked == 1 ==>
            o.answer == Null && o.state.trxs == rs.trxs)
      && (rs.TimestampOf(looked) <= t ==>
            o.answer == Found(rs.nextId) && o.state.trxs == rs.trxs[rs.nextId := Trx(ReadOnly, looked)])
  {
    var (s1, id) := BeginReadOnly(rs, looked);
    assert id == rs.nextId && id !in rs.trxs;
    if rs.TimestampOf(looked) > t {
      assert Close(s1, id).trxs == rs.trxs;
    }
  }

  /**
   * The revert step of an updatable request by point in time: nothing is reverted
   * unless the looked-up revision is older than the most recent one; after reverting to
   * a revision newer than t, the transaction goes one revision further back, or, on the
   * first revision, is closed and the answer is null.
   */
  lemma WritableAtTimeCases(rs: Resource, t: int, looked: int)
    requires rs.Valid() && 1 <= looked <= rs.Latest()
    ensures var (s1, w) := LeaseWrite(rs); var o := AtTime(rs, t, looked, true);
      && (looked >= rs.Latest() ==> o == Outcome(s1, Found(w)))
      && (looked < rs.Latest() && rs.TimestampOf(looked) <= t ==>
            o.answer == Found(w) && Exposed(o) == looked)
      && (looked < rs.Latest() && rs.TimestampOf(looked) > t && looked > 1 ==>
            o.answer == Found(w) && Exposed(o) == looked - 1)
      && (looked < rs.Latest() && rs.TimestampOf(looked) > t && looked == 1 ==>
            o.answer == Null && w !in o.state.trxs && o.state.writeTrx.None? && !o.state.running)
  {
  }

  /**
   * The floor guarantee of a read-only request by point in time: when the store's
   * lookup is at most one revision late, the answer is null exactly when t precedes the
   * first revision, and otherwise a read-only transaction on the newest revision
   * committed no later than t.
   */
  lemma ReadOnlyAtTimeIsFloor(rs: Resource, t: int, looked: int)
    requires rs.Valid() && 1 <= looked <= rs.Latest() && NearFloor(rs.timestamps, t, looked)
    ensures var o := AtTime(rs, t, looked, false);
      && (o.answer == Null <==> t < rs.timestamps[0])
      && (o.answer.Found? ==>
            o.state.trxs[o.answer.value].kind == ReadOnly && IsFloor(rs.timestamps, t, Exposed(o)))
  {
    FloorZeroIffBeforeFirst(rs, t);
    ReadOnlyAtTimeCases(rs, t, looked);
  }

  /**
   * The floor guarantee of an updatable request by point in time, where the code checks
   * timestamps at all: when the lookup is at most one revision late and is not the most
   * recent revision, the answer is null exactly when t precedes the first revision (and
   * the write transaction is then closed), and otherwise the leased write transaction on
   * the newest revision committed no later than t.
   */
  lemma WritableAtTimeIsFloor(rs: Resource, t: int, looked: int)
    requires rs.Valid() && 1 <= looked < rs.Latest() && NearFloor(rs.timestamps, t, looked)
    ensures var (s1, w) := LeaseWrite(rs); var o := AtTime(rs, t, looked, true);
      && (o.answer == Null <==> t < rs.timestamps[0])
      && (o.answer == Null ==> w !in o.state.trxs && o.state.writeTrx.None?)
      && (o.answer.Found? ==> o.answer.value == w && IsFloor(rs.timestamps, t, Exposed(o)))
  {
    FloorZeroIffBeforeFirst(rs, t);
    WritableAtTimeCases(rs, t, looked);
  }

  /**
   * When the lookup gives the most recent revision, an updatable request makes no
   * timestamp check: a resource with a single revision committed after t still answers
   * with its write transaction on that revision, where the read-only request answers null.
   */
  lemma SingleRevisionWritableIgnoresTime(rs: Resource, t: int)
    requires rs.Valid() && rs.Latest() == 1 && t < rs.timestamps[0]
    ensures var o := AtTime(rs, t, 1, true);
      o.answer.Found? && Exposed(o) == 1 && rs.TimestampOf(Exposed(o)) > t
    ensures AtTime(rs, t, 1, false).answer == Null
  {
    WritableAtTimeCases(rs, t, 1);
    ReadOnlyAtTimeCases(rs, t, 1);
  }

  /**
   * When the lookup names the most recent revision, the updatable request neither reverts
   * nor checks timestamps: the leased write transaction is returned on whatever revision
   * it exposes. A newly begun one exposes the most recent revision; a reused one keeps
   * the revision an earlier request reverted it to.
   */
  lemma WritableAtLatestKeepsLeasedRevision(rs: Resource, t: int)
    requires rs.Valid()
    ensures var (s1, w) := LeaseWrite(rs); var o := AtTime(rs, t, rs.Latest(), true);
      && o == Outcome(s1, Found(w))
      && (rs.writeTrx.Some? ==> Exposed(o) == rs.trxs[rs.writeTrx.value].revision)
      && (rs.writeTrx.None? ==> Exposed(o) == rs.Latest())
  {
    WritableAtTimeCases(rs, t, rs.Latest());
  }

  /**
   * An updatable request by revision that reverts the write transaction, followed by an
   * updatable request by point in time whose lookup names the most recent revision, leaves
   * the same transaction on the older revision, whatever the point in time.
   */
  lemma EarlierRevertPersists(rs: Resource, revision: int, t: int)
    requires rs.Valid() && 1 <= SelectVersion(revision, rs.Latest()) < rs.Latest()
    ensures var o1 := AtRevision(rs, revision, true);
      var o2 := AtTime(o1.state, t, o1.state.Latest(), true);
      && o2.answer == o1.answer && o2.state == o1.state
      && Exposed(o2) == SelectVersion(revision, rs.Latest())
  {
    WritableAtRevision(rs, revision);
    var o1 := AtRevision(rs, revision, true);
    WritableAtLatestKeepsLeasedRevision(o1.state, t);
  }

  /**
   * Revisions committed at 10 and 20, with the write transaction reverted to revision 1:
   * a request as of 100, looked up exactly (revision 2 is the floor), answers with that
   * transaction on revision 1, below the floor.
   */
  lemma RevertedLeaseLagsFloor(rs: Resource)
    requires rs == Resource([10, 20], true, Some(0), map[0 := Trx(Write, 1)], 1)
    ensures rs.Valid() && NearFloor(rs.timestamps, 100, 2) && IsFloor(rs.timestamps, 100, 2)
    ensures var o := AtTime(rs, 100, 2, true); o.answer == Found(0) && Exposed(o) == 1
  {
    assert Floor(rs.timestamps, 100) == 2;
    WritableAtLatestKeepsLeasedRevision(rs, 100);
  }

  // ---------------------------------------------------------------------------
  // Resolution by revision number

  /** Revision -1 is the most recent revision. */
  lemma MinusOneIsLatest(rs: Resource, updatable: bool)
    requires rs.Valid()
    ensures AtRevision(rs, -1, updatable) == AtRevision(rs, rs.Latest(), updatable)
  {
  }

  /**
   * An updatable request for a version reverts the leased write transaction to it only
   * when it is older than the most recent revision; the current or a later version leaves
   * the transaction as the lease gave it; a version below 1 is refused by the store.
   */
  lemma WritableAtRevision(rs: Resource, revision: int)
    requires rs.Valid()
    ensures var v := SelectVersion(revision, rs.Latest()); var (s1, w) := LeaseWrite(rs);
      var o := AtRevision(rs, revision, true);
      && (1 <= v < rs.Latest() ==> o.answer == Found(w) && Exposed(o) == v && o.state.trxs.Keys == s1.trxs.Keys)
      && (v >= rs.Latest() ==> o == Outcome(s1, Found(w)))
      && (v < 1 ==> o == Outcome(s1, Failed(NoSuchRevision(v))))
  {
  }

  /**
   * A read-only request for a version opens a new read-only transaction exactly on that
   * version, and fails without touching the resource when there is no such revision.
   */
  lemma ReadOnlyAtRevision(rs: Resource, revision: int)
    requires rs.Valid()
    ensures var v := SelectVersion(revision, rs.Latest()); var o := AtRevision(rs, revision, false);
      && (1 <= v <= rs.Latest() ==>
            o.answer == Found(rs.nextId) && o.state.trxs == rs.trxs[rs.nextId := Trx(ReadOnly, v)])
      && (!(1 <= v <= rs.Latest()) ==> o == Outcome(rs, Failed(NoSuchRevision(v))))
  {
  }

  /**
   * An updatable request for the most recent version, or for a later one, answers with
   * the leased write transaction on the revision it already exposes, which for a reused
   * transaction is the one an earlier request reverted it to.
   */
  lemma WritableAtLatestVersionKeepsLeasedRevision(rs: Resource, revision: int)
    requires rs.Valid() && SelectVersion(revision, rs.Latest()) >= rs.Latest()
    ensures var (s1, w) := LeaseWrite(rs); var o := AtRevision(rs, revision, true);
      && o == Outcome(s1, Found(w))
      && (rs.writeTrx.Some? ==> Exposed(o) == rs.trxs[rs.writeTrx.value].revision)
      && (rs.writeTrx.None? ==> Exposed(o) == rs.Latest())
  {
    WritableAtRevision(rs, revision);
  }

  /**
   * Revisions committed at 10 and 20, with the write transaction reverted to revision 1:
   * an updatable request for revision -1, or for revision 2, both the most recent,
   * answers with that transaction still on revision 1.
   */
  lemma LatestRequestKeepsRevertedLease(rs: Resource)
    requires rs == Resource([10, 20], true, Some(0), map[0 := Trx(Write, 1)], 1)
    ensures rs.Valid() && rs.Latest() == 2
    ensures var o := AtRevision(rs, -1, true); o.answer == Found(0) && Exposed(o) == 1
    ensures var o := AtRevision(rs, 2, true); o.answer == Found(0) && Exposed(o) == 1
  {
    WritableAtLatestVersionKeepsLeasedRevision(rs, -1);
    WritableAtLatestVersionKeepsLeasedRevision(rs, 2);
  }

  /**
   * Revisions committed at 10, 20 and 30, with the write transaction on revision 1: an
   * updatable request for revision 2, and one as of 25 whose lookup names revision 2,
   * both move that transaction forward to revision 2.
   */
  lemma RevertMovesLeaseForward(rs: Resource)
    requires rs == Resource([10, 20, 30], true, Some(0), map[0 := Trx(Write, 1)], 1)
    ensures rs.Valid() && NearFloor(rs.timestamps, 25, 2)
    ensures var o := AtRevision(rs, 2, true); o.answer == Found(0) && Exposed(o) == 2
    ensures var o := AtTime(rs, 25, 2, true); o.answer == Found(0) && Exposed(o) == 2
  {
    assert Floor(rs.timestamps, 25) == 2;
    WritableAtRevision(rs, 2);
    WritableAtTimeCases(rs, 25, 2);
  }

  // ---------------------------------------------------------------------------
  // A worked scenario: revisions committed at 10, 20 and 30

  /** Read-only requests as of 25, 5 and 30, and for revision -1. */
  lemma ThreeRevisionScenario(rs: Resource, looked25: int, looked5: int, looked30: int)
    requires rs.Valid() && rs.timestamps == [10, 20, 30]
    requires 1 <= looked25 <= 3 && NearFloor(rs.timestamps, 25, looked25)
    requires 1 <= looked5 <= 3 && NearFloor(rs.timestamps, 5, looked5)
    requires 1 <= looked30 <= 3 && NearFloor(rs.timestamps, 30, looked30)
    ensures var o := AtTime(rs, 25, looked25, false); o.answer.Found? && Exposed(o) == 2
    ensures AtTime(rs, 5, looked5, false).answer == Null
    ensures var o := AtTime(rs, 30, looked30, false); o.answer.Found? && Exposed(o) == 3
    ensures var o := AtRevision(rs, -1, false); o.answer.Found? && Exposed(o) == 3
  {
    ReadOnlyAtTimeIsFloor(rs, 25, looked25);
    var o25 := AtTime(rs, 25, looked25, false);
    assert o25.answer.Found? && IsFloor(rs.timestamps, 25, Exposed(o25));
    assert IsFloor(rs.timestamps, 25, 2);
    IsFloorUnique(rs.timestamps, 25, 2, Exposed(o25));
    ReadOnlyAtTimeIsFloor(rs, 5, looked5);
    ReadOnlyAtTimeIsFloor(rs, 30, looked30);
    var o30 := AtTime(rs, 30, looked30, false);
    assert o30.answer.Found? && IsFloor(rs.timestamps, 30, Exposed(o30));
    ReadOnlyAtRevision(rs, -1);
  }

  /** At most one revision is the floor of a point in time. */
  lemma IsFloorUnique(ts: seq<int>, t: int, r1: int, r2: int)
    requires IsFloor(ts, t, r1) && IsFloor(ts, t, r2)
    ensures r1 == r2
  {
  }
}
