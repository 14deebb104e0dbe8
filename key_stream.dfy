/**
 * The item stream over index lookup results: an outer iterator of node-reference
 * groups, each a collection of node keys, flattened lazily into items. Each item is
 * built from a shared read cursor moved to the key just drawn.
 *
 * The outer iterator is the sequence `groups` with the count `outer` of groups drawn
 * so far; the inner iterator is the last drawn group with the count `pos` of keys drawn
 * from it (no inner iterator while `outer` is 0).
 */
module KeyStream {
  import opened Wrappers

  /** A query item: the node key the cursor stood on, and the owning collection's id. */
  datatype Item = Item(key: int, collection: int)

  /** How far the two iterators have advanced. */
  datatype Position = Position(outer: nat, pos: nat)

  ghost predicate WellFormed(groups: seq<seq<int>>, p: Position) {
    && p.outer <= |groups|
    && (p.outer == 0 ==> p.pos == 0)
    && (p.outer > 0 ==> p.pos <= |groups[p.outer - 1]|)
  }

  /** The inner iterator exists and has a next key. */
  predicate InnerHasNext(groups: seq<seq<int>>, p: Position)
    requires WellFormed(groups, p)
  {
    p.outer > 0 && p.pos < |groups[p.outer - 1]|
  }

  /** Every key of every group, in outer order, then in group order. */
  function Flatten(groups: seq<seq<int>>): seq<int> {
    if groups == [] then [] else groups[0] + Flatten(groups[1..])
  }

  /** The sum of the group sizes. */
  function TotalSize(groups: seq<seq<int>>): nat {
    if groups == [] then 0 else |groups[0]| + TotalSize(groups[1..])
  }

  /** The keys drawn so far. */
  function Consumed(groups: seq<seq<int>>, p: Position): seq<int>
    requires WellFormed(groups, p)
  {
    if p.outer == 0 then [] else Flatten(groups[..p.outer - 1]) + groups[p.outer - 1][..p.pos]
  }

  /** The keys still to be drawn. */
  function Remaining(groups: seq<seq<int>>, p: Position): seq<int>
    requires WellFormed(groups, p)
  {
    (if p.outer == 0 then [] else groups[p.outer - 1][p.pos..]) + Flatten(groups[p.outer..])
  }

  /**
   * One call of next(): the key it draws, if any, and where the iterators stand after
   * it. A call adopts the next group only when there is no inner iterator or it is
   * exhausted, and then draws from the adopted group alone.
   */
  function Step(groups: seq<seq<int>>, p: Position): (r: (Position, Option<int>))
    requires WellFormed(groups, p)
    ensures WellFormed(groups, r.0)
    ensures r.0.outer == p.outer || (r.0.outer == p.outer + 1 && !InnerHasNext(groups, p))
    ensures r.0.outer == p.outer ==> r.0.pos == p.pos + (if r.1.Some? then 1 else 0)
    ensures r.0.outer == p.outer + 1 ==> r.0.pos == (if r.1.Some? then 1 else 0)
  {
    if !InnerHasNext(groups, p) then
      if p.outer < |groups| then
        var adopted := Position(p.outer + 1, 0);
        if 0 < |groups[p.outer]| then (Position(p.outer + 1, 1), Some(groups[p.outer][0]))
        else (adopted, None)
      else (p, None)
    else (Position(p.outer, p.pos + 1), Some(groups[p.outer - 1][p.pos]))
  }

  /** The answers of `k` successive calls from `p`, and where the iterators then stand. */
  function Run(groups: seq<seq<int>>, p: Position, k: nat): (r: (seq<Option<int>>, Position))
    requires WellFormed(groups, p)
    ensures |r.0| == k && WellFormed(groups, r.1)
    decreases k
  {
    if k == 0 then ([], p)
    else
      var (p1, o) := Step(groups, p);
      var (rest, last) := Run(groups, p1, k - 1);
      ([o] + rest, last)
  }

  function Somes(s: seq<int>): (r: seq<Option<int>>)
    ensures |r| == |s|
  {
    if s == [] then [] else [Some(s[0])] + Somes(s[1..])
  }

  function Nones(k: nat): (r: seq<Option<int>>)
    ensures |r| == k
  {
    if k == 0 then [] else [None] + Nones(k - 1)
  }

  // ---------------------------------------------------------------------------
  // Lemmas on sequences of groups

  lemma {:induction false} FlattenLength(groups: seq<seq<int>>)
    ensures |Flatten(groups)| == TotalSize(groups)
  {
    if groups != [] {
      FlattenLength(groups[1..]);
    }
  }

  lemma {:induction false} FlattenAppend(groups: seq<seq<int>>, g: seq<int>)
    ensures Flatten(groups + [g]) == Flatten(groups) + g
  {
    if groups == [] {
      assert [g][1..] == [];
    } else {
      assert (groups + [g])[1..] == groups[1..] + [g];
      FlattenAppend(groups[1..], g);
    }
  }

  // ---------------------------------------------------------------------------
  // What one call does

  /**
   * Every key is drawn exactly once and in order: the keys drawn so far followed by the
   * keys still to come are always all the keys of all groups in order.
   */
  lemma ConsumedThenRemainingIsAll(groups: seq<seq<int>>, p: Position)
    requires WellFormed(groups, p)
    ensures Consumed(groups, p) + Remaining(groups, p) == Flatten(groups)
  {
    if p.outer > 0 {
      var g := groups[p.outer - 1];
      assert g[..p.pos] + g[p.pos..] == g;
      FlattenAppend(groups[..p.outer - 1], g);
      assert groups[..p.outer - 1] + [g] == groups[..p.outer];
      FlattenSplit(groups, p.outer);
    }
  }

  lemma {:induction false} FlattenSplit(groups: seq<seq<int>>, n: nat)
    requires n <= |groups|
    ensures Flatten(groups[..n]) + Flatten(groups[n..]) == Flatten(groups)
  {
    if n > 0 {
      assert groups[..n][1..] == groups[1..][..n - 1];
      assert groups[n..] == groups[1..][n - 1..];
      FlattenSplit(groups[1..], n - 1);
    } else {
      assert groups[n..] == groups;
    }
  }

  /**
   * A call that answers with a key draws the first remaining key; a call that answers
   * with nothing draws nothing.
   */
  lemma StepDrawsNextKey(groups: seq<seq<int>>, p: Position)
    requires WellFormed(groups, p)
    ensures var (q, o) := Step(groups, p);
      && (o.Some? ==> Remaining(groups, p) == [o.value] + Remaining(groups, q)
                      && Consumed(groups, q) == Consumed(groups, p) + [o.value])
      && (o.None? ==> Remaining(groups, q) == Remaining(groups, p) && Consumed(groups, q) == Consumed(groups, p))
  {
    if InnerHasNext(groups, p) {
      DrawWithinGroup(groups, p);
    } else if p.outer < |groups| {
      DrawFromAdoptedGroup(groups, p);
    }
  }

  /** Drawing the next key of the current group. */
  lemma DrawWithinGroup(groups: seq<seq<int>>, p: Position)
    requires WellFormed(groups, p) && InnerHasNext(groups, p)
    ensures var g := groups[p.outer - 1]; var q := Position(p.outer, p.pos + 1);
      && Remaining(groups, p) == [g[p.pos]] + Remaining(groups, q)
      && Consumed(groups, q) == Consumed(groups, p) + [g[p.pos]]
  {
    var g := groups[p.outer - 1];
    assert g[p.pos..] == [g[p.pos]] + g[p.pos + 1..];
    assert g[..p.pos + 1] == g[..p.pos] + [g[p.pos]];
  }

  /** Adopting the next group leaves the drawn and remaining keys as they were. */
  lemma AdoptKeepsKeys(groups: seq<seq<int>>, p: Position)
    requires WellFormed(groups, p) && !InnerHasNext(groups, p) && p.outer < |groups|
    ensures var q := Position(p.outer + 1, 0);
      Remaining(groups, q) == Remaining(groups, p) && Consumed(groups, q) == Consumed(groups, p)
  {
    assert groups[p.outer..] == [groups[p.outer]] + groups[p.outer + 1..];
    assert groups[p.outer][0..] == groups[p.outer];
    if p.outer > 0 {
      var g := groups[p.outer - 1];
      assert g[p.pos..] == [] && g[..p.pos] == g;
      FlattenAppend(groups[..p.outer - 1], g);
      assert groups[..p.outer - 1] + [g] == groups[..p.outer];
    }
  }

  /** A call that adopts the next group draws its first key, if it has one. */
  lemma DrawFromAdoptedGroup(groups: seq<seq<int>>, p: Position)
    requires WellFormed(groups, p) && !InnerHasNext(groups, p) && p.outer < |groups|
    ensures var (q, o) := Step(groups, p);
      && (o.Some? ==> Remaining(groups, p) == [o.value] + Remaining(groups, q)
                      && Consumed(groups, q) == Consumed(groups, p) + [o.value])
      && (o.None? ==> Remaining(groups, q) == Remaining(groups, p) && Consumed(groups, q) == Consumed(groups, p))
  {
    AdoptKeepsKeys(groups, p);
    var adopted := Position(p.outer + 1, 0);
    if 0 < |groups[p.outer]| {
      DrawWithinGroup(groups, adopted);
    }
  }

  /**
   * An adopted empty group answers with nothing rather than being skipped; the next
   * call adopts the group after it.
   */
  lemma EmptyGroupAnswersNothing(groups: seq<seq<int>>, p: Position)
    requires WellFormed(groups, p) && !InnerHasNext(groups, p)
    requires p.outer < |groups| && groups[p.outer] == []
    ensures Step(groups, p) == (Position(p.outer + 1, 0), None)
    ensures p.outer + 1 < |groups| ==> Step(groups, Position(p.outer + 1, 0)).0.outer == p.outer + 2
  {
  }

  /** A stream whose iterators are both exhausted answers nothing forever and stays put. */
  lemma {:induction false} ExhaustedStaysExhausted(groups: seq<seq<int>>, p: Position, k: nat)
    requires WellFormed(groups, p) && !InnerHasNext(groups, p) && p.outer == |groups|
    ensures Step(groups, p) == (p, None)
    ensures Run(groups, p, k) == (Nones(k), p)
  {
    if k > 0 {
      ExhaustedStaysExhausted(groups, p, k - 1);
    }
  }

  /**
   * With no empty group left to adopt, the stream answers with every remaining key in
   * order, one per call, and then with nothing from a stream whose iterators are both
   * exhausted.
   */
  lemma {:induction false} NonEmptyGroupsYieldAll(groups: seq<seq<int>>, p: Position)
    requires WellFormed(groups, p)
    requires forall i :: p.outer <= i < |groups| ==> groups[i] != []
    ensures var (answers, q) := Run(groups, p, |Remaining(groups, p)|);
      && answers == Somes(Remaining(groups, p))
      && !InnerHasNext(groups, q) && q.outer == |groups|
    decreases |Remaining(groups, p)|
  {
    var (p1, o) := Step(groups, p);
    StepDrawsNextKey(groups, p);
    RemainingEmptyIffExhausted(groups, p);
    if Remaining(groups, p) != [] {
      NonEmptyGroupsYieldAll(groups, p1);
    }
  }

  /** With no empty group left to adopt, nothing remains exactly when both iterators are exhausted. */
  lemma RemainingEmptyIffExhausted(groups: seq<seq<int>>, p: Position)
    requires WellFormed(groups, p)
    requires forall i :: p.outer <= i < |groups| ==> groups[i] != []
    ensures Remaining(groups, p) == [] <==> !InnerHasNext(groups, p) && p.outer == |groups|
  {
    if InnerHasNext(groups, p) {
      assert Remaining(groups, p)[0] == groups[p.outer - 1][p.pos];
    } else if p.outer < |groups| {
      assert groups[p.outer..] == [groups[p.outer]] + groups[p.outer + 1..];
      assert Remaining(groups, p)[|Remaining(groups, p)| - |Flatten(groups[p.outer..])|] == groups[p.outer][0];
    } else {
      assert groups[p.outer..] == [];
    }
  }

  /**
   * From the start, with every group non-empty, the stream answers with exactly as many
   * items as the groups hold keys, in order, and with nothing on every call after that.
   */
  lemma CountBeforeFirstNull(groups: seq<seq<int>>, more: nat)
    requires forall i :: 0 <= i < |groups| ==> groups[i] != []
    ensures var (answers, q) := Run(groups, Position(0, 0), TotalSize(groups));
      && answers == Somes(Flatten(groups))
      && Run(groups, q, more).0 == Nones(more)
  {
    var start := Position(0, 0);
    assert Remaining(groups, start) == Flatten(groups) by {
      assert groups[0..] == groups;
    }
    FlattenLength(groups);
    NonEmptyGroupsYieldAll(groups, start);
    var q := Run(groups, start, TotalSize(groups)).1;
    ExhaustedStaysExhausted(groups, q, more);
  }

  /** Groups {5, 7} and {9}: items for 5, 7 and 9, then nothing on the fourth call. */
  lemma TwoGroupScenario()
    ensures Run([[5, 7], [9]], Position(0, 0), 4).0 == [Some(5), Some(7), Some(9), None]
  {
    var groups := [[5, 7], [9]];
    CountBeforeFirstNull(groups, 1);
    assert Flatten(groups) == [5, 7, 9] by {
      assert Flatten(groups[1..]) == [9] by {
        var tail: seq<seq<int>> := groups[1..][1..];
        assert tail == [];
      }
    }
    RunSplit(groups, Position(0, 0), 3, 1);
  }

  /** k + m calls are k calls followed by m calls. */
  lemma {:induction false} RunSplit(groups: seq<seq<int>>, p: Position, k: nat, m: nat)
    requires WellFormed(groups, p)
    ensures Run(groups, p, k + m).0 == Run(groups, p, k).0 + Run(groups, Run(groups, p, k).1, m).0
    ensures Run(groups, p, k + m).1 == Run(groups, Run(groups, p, k).1, m).1
    decreases k
  {
    if k == 0 {
      assert Run(groups, p, k).0 == [];
    } else {
      var (p1, o) := Step(groups, p);
      RunSplit(groups, p1, k - 1, m);
      var (a1, q1) := Run(groups, p1, k - 1);
      var a2 := Run(groups, q1, m).0;
      assert Run(groups, p, k) == ([o] + a1, q1);
      assert Run(groups, p, k + m).0 == [o] + (a1 + a2) == ([o] + a1) + a2;
    }
  }

  // ---------------------------------------------------------------------------
  // The stream object

  /** The shared read cursor the stream moves (the transaction's current node). */
  class NodeCursor {
    var nodeKey: int

    constructor (nodeKey: int)
      ensures this.nodeKey == nodeKey
    {
      this.nodeKey := nodeKey;
    }

    /** moveTo */
    method MoveTo(key: int)
      modifies this
      ensures nodeKey == key
    {
      nodeKey := key;
    }
  }

  class ItemKeyStream {
    const groups: seq<seq<int>>
    const collection: int
    const rtx: NodeCursor
    var outer: nat
    var pos: nat

    ghost predicate Valid()
      reads this
    {
      WellFormed(groups, Position(outer, pos))
    }

    function At(): Position
      reads this
    {
      Position(outer, pos)
    }

    constructor (groups: seq<seq<int>>, collection: int, rtx: NodeCursor)
      ensures Valid() && At() == Position(0, 0)
      ensures this.groups == groups && this.collection == collection && this.rtx == rtx
    {
      this.groups, this.collection, this.rtx := groups, collection, rtx;
      outer, pos := 0, 0;
    }

    /**
     * next(): the iterators advance as Step says; an item is built from the cursor
     * after it is moved to the key drawn; when no key is drawn the cursor stays put.
     */
    method Next() returns (r: Option<Item>)
      requires Valid()
      modifies this, rtx
      ensures Valid()
      ensures (At(), if r.Some? then Some(r.value.key) else None) == Step(groups, old(At()))
      ensures r.Some? ==> r.value == Item(rtx.nodeKey, collection)
      ensures r.None? ==> rtx.nodeKey == old(rtx.nodeKey)
    {
      if outer == 0 || !(pos < |groups[outer - 1]|) {
        if outer < |groups| {
          outer, pos := outer + 1, 0;
          r := GetItem();
          return;
        }
      } else {
        r := GetItem();
        return;
      }
      r := None;
    }

    /** getItem(): draw the inner iterator's next key, if any, and build its item. */
    method GetItem() returns (r: Option<Item>)
      requires Valid() && outer > 0
      modifies this`pos, rtx
      ensures Valid()
      ensures old(pos) < |groups[outer - 1]| ==>
        pos == old(pos) + 1 && r == Some(Item(groups[outer - 1][old(pos)], collection))
        && rtx.nodeKey == groups[outer - 1][old(pos)]
      ensures old(pos) >= |groups[outer - 1]| ==> pos == old(pos) && r == None && rtx.nodeKey == old(rtx.nodeKey)
    {
      if pos < |groups[outer - 1]| {
        var nodeKey := groups[outer - 1][pos];
        pos := pos + 1;
        rtx.MoveTo(nodeKey);
        return Some(Item(rtx.nodeKey, collection));
      }
      return None;
    }

    /** close(): the stream owns neither iterator nor cursor, and releases nothing. */
    method Close()
      requires Valid()
      ensures Valid() && unchanged(this, rtx)
    {
    }
  }
}
