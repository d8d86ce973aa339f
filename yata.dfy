/**
 * The research prototype of YATA (research/yata): a state vector that
 * records one clock per client, a document that places each arriving block
 * by its origin with a one-step client tie-break, and a transaction that
 * batches blocks for the document.
 *
 * Blocks of the document are values in the `blocks` sequence; a `*Block`
 * pointer between them is an index into that sequence.
 */
module Yata {
  import opened Wrappers

  // ---------------------------------------------------------------------
  // IDs and blocks (research/yata/block.go)
  // ---------------------------------------------------------------------

  datatype YID = YID(client: nat, clock: nat)

  /** A block of the research document; `left`/`right` index the document's blocks. */
  datatype YBlock = YBlock(
    id: YID,
    left: Option<nat>,
    right: Option<nat>,
    content: string,
    deleted: bool,
    origin: Option<YID>,
    clientID: nat)

  // ---------------------------------------------------------------------
  // State vector (research/yata/sv.go)
  // ---------------------------------------------------------------------

  /** A client's entry, 0 when the map has none (Go's zero value for a missing key). */
  function Get(sv: map<nat, nat>, client: nat): nat
  {
    if client in sv then sv[client] else 0
  }

  function Max(a: nat, b: nat): nat
  {
    if a < b then b else a
  }

  /** `HasSeen(client, clock)` on the entries `sv`. */
  predicate Seen(sv: map<nat, nat>, client: nat, clock: nat)
  {
    Get(sv, client) >= clock
  }

  /**
   * `sv` after `Merge(other)`: every client of `other` holds the larger of
   * the two entries, and the others keep theirs.  A client new to `sv`
   * appears only with a positive clock, since Go only writes when the
   * current entry (0 when missing) is smaller.
   */
  function Merged(sv: map<nat, nat>, other: map<nat, nat>): (r: map<nat, nat>)
    ensures forall c :: c in other ==> Get(r, c) == Max(Get(sv, c), other[c])
    ensures forall c :: c !in other ==> Get(r, c) == Get(sv, c)
    ensures forall c :: c in r <==> c in sv || (c in other && other[c] > 0)
  {
    map c | c in sv.Keys + other.Keys && (c in sv || other[c] > 0) :: Max(Get(sv, c), Get(other, c))
  }

  /** Merging the same vector a second time changes nothing. */
  lemma MergeIdempotent(sv: map<nat, nat>, other: map<nat, nat>)
    ensures Merged(Merged(sv, other), other) == Merged(sv, other)
  {
    var m := Merged(sv, other);
    var m2 := Merged(m, other);
    forall c | c in m2
      ensures c in m && m2[c] == m[c]
    {
      assert Get(m2, c) == Get(m, c);
    }
  }

  /** After a merge the vector has seen every clock of the merged vector, and every clock it had seen before. */
  lemma MergeSeesBoth(sv: map<nat, nat>, other: map<nat, nat>, c: nat, k: nat)
    ensures c in other ==> Seen(Merged(sv, other), c, other[c])
    ensures Seen(sv, c, k) ==> Seen(Merged(sv, other), c, k)
  {
  }

  /** `HasSeen` of clock 0 always holds, and having seen a clock means having seen every smaller one. */
  lemma SeenDownward(sv: map<nat, nat>, c: nat, k: nat, j: nat)
    ensures Seen(sv, c, 0)
    ensures Seen(sv, c, k) && j <= k ==> Seen(sv, c, j)
  {
  }

  /**
   * A vector that agrees with the merge of `other` into `sv` on every
   * client's entry and on which clients it has is that merge.
   */
  lemma MergedByEntries(sv: map<nat, nat>, other: map<nat, nat>, m: map<nat, nat>)
    requires forall c :: c in other ==> Get(m, c) == Max(Get(sv, c), other[c])
    requires forall c :: c !in other ==> Get(m, c) == Get(sv, c)
    requires forall c :: c in m <==> c in sv || (c in other && other[c] > 0)
    ensures m == Merged(sv, other)
  {
    var r := Merged(sv, other);
    forall c | c in m
      ensures c in r && m[c] == r[c]
    {
      assert Get(m, c) == Get(r, c);
    }
  }

  class StateVector {
    var entries: map<nat, nat>

    /** `NewStateVector`: no entries, so every client reads as 0. */
    constructor ()
      ensures entries == map[]
      ensures forall c :: Get(entries, c) == 0
    {
      entries := map[];
    }

    /** `UpdateState`: overwrite the client's entry, even with a smaller clock. */
    method UpdateState(client: nat, clock: nat)
      modifies this
      ensures entries == old(entries)[client := clock]
      ensures Get(entries, client) == clock
      ensures forall c :: c != client ==> Get(entries, c) == Get(old(entries), c)
    {
      entries := entries[client := clock];
    }

    /** `Merge(other)`: walk `other`'s clients, raising this vector's entry wherever it is smaller. */
    method Merge(other: StateVector)
      modifies this
      ensures entries == Merged(old(entries), old(other.entries))
    {
      var source := other.entries;
      ghost var start := entries;
      var todo := source.Keys;
      while todo != {}
        invariant todo <= source.Keys
        invariant forall c :: c in source && c !in todo ==> Get(entries, c) == Max(Get(start, c), source[c])
        invariant forall c :: c !in source || c in todo ==> Get(entries, c) == Get(start, c)
        invariant forall c :: c in entries <==> c in start || (c in source && c !in todo && source[c] > 0)
        decreases |todo|
      {
        var c :| c in todo;
        if Get(entries, c) < source[c] {
          entries := entries[c := source[c]];
        }
        todo := todo - {c};
      }
      MergedByEntries(start, source, entries);
    }

    /** `HasSeen(client, clock)`. */
    function HasSeen(client: nat, clock: nat): (r: bool)
      reads this
      ensures r <==> Seen(entries, client, clock)
    {
      Get(entries, client) >= clock
    }
  }

  // ---------------------------------------------------------------------
  // Document (research/yata/doc.go)
  // ---------------------------------------------------------------------

  /** Every block's neighbours are blocks of the document. */
  ghost predicate LinksBelow(blocks: seq<YBlock>)
  {
    forall i :: 0 <= i < |blocks| ==>
      (blocks[i].left.Some? ==> blocks[i].left.value < |blocks|) &&
      (blocks[i].right.Some? ==> blocks[i].right.value < |blocks|)
  }

  /** The last block of `blocks` whose ID is `origin`; none for a nil origin or when no block has it. */
  function LastWithID(blocks: seq<YBlock>, origin: Option<YID>): (r: Option<nat>)
    ensures r.Some? ==> r.value < |blocks| && origin == Some(blocks[r.value].id)
    ensures r.Some? ==> forall j :: r.value < j < |blocks| ==> Some(blocks[j].id) != origin
    ensures r.None? <==> origin.None? || forall j :: 0 <= j < |blocks| ==> blocks[j].id != origin.value
  {
    if blocks == [] then None
    else if origin.Some? && blocks[|blocks| - 1].id == origin.value then Some(|blocks| - 1)
    else LastWithID(blocks[..|blocks| - 1], origin)
  }

  /**
   * The neighbours `Integrate` picks: the last block with the block's
   * origin and that block's right neighbour, moved one step right when the
   * right neighbour's client is smaller than the new block's.
   */
  function Place(blocks: seq<YBlock>, b: YBlock): (r: (Option<nat>, Option<nat>))
    requires LinksBelow(blocks)
    ensures (r.0.Some? ==> r.0.value < |blocks|) && (r.1.Some? ==> r.1.value < |blocks|)
  {
    var m := LastWithID(blocks, b.origin);
    var left := m;
    var right := if m.Some? then blocks[m.value].right else None;
    if right.Some? && blocks[right.value].id.client < b.id.client then (right, blocks[right.value].right)
    else (left, right)
  }

  /** The document's blocks after `Integrate(b)`: `b` appended between its chosen neighbours, which point to it. */
  function Integrated(blocks: seq<YBlock>, b: YBlock): (r: seq<YBlock>)
    requires LinksBelow(blocks)
    ensures |r| == |blocks| + 1 && LinksBelow(r)
  {
    var (left, right) := Place(blocks, b);
    var h := |blocks|;
    var linked := if left.Some? then blocks[left.value := blocks[left.value].(right := Some(h))] else blocks;
    var linked' := if right.Some? then linked[right.value := linked[right.value].(left := Some(h))] else linked;
    linked' + [b.(left := left, right := right)]
  }

  /**
   * `Integrate` appends the block and otherwise changes only the left
   * neighbour's right pointer and the right neighbour's left pointer, which
   * both point to it; the new block points to the chosen neighbours.
   */
  lemma IntegratedLinks(blocks: seq<YBlock>, b: YBlock)
    requires LinksBelow(blocks)
    ensures var r, h := Integrated(blocks, b), |blocks|;
      var (left, right) := Place(blocks, b);
      && r[h] == b.(left := left, right := right)
      && (left.Some? ==> r[left.value].right == Some(h))
      && (right.Some? ==> r[right.value].left == Some(h))
      && forall i :: 0 <= i < h ==>
           && r[i] == blocks[i].(left := r[i].left, right := r[i].right)
           && (Some(i) != left ==> r[i].right == blocks[i].right)
           && (Some(i) != right ==> r[i].left == blocks[i].left)
  {
  }

  /** `b'` is `b` up to its `left`/`right` links. */
  predicate SameBlock(b': YBlock, b: YBlock)
  {
    b' == b.(left := b'.left, right := b'.right)
  }

  /** `Integrate` keeps every earlier block up to its links and puts the new one last, up to its links. */
  lemma IntegratedKeeps(blocks: seq<YBlock>, b: YBlock)
    requires LinksBelow(blocks)
    ensures var r := Integrated(blocks, b);
      && SameBlock(r[|blocks|], b)
      && forall i :: 0 <= i < |blocks| ==> SameBlock(r[i], blocks[i])
  {
  }

  /** A nil origin, or one that no block has, leaves the new block without neighbours. */
  lemma NoOriginNoNeighbours(blocks: seq<YBlock>, b: YBlock)
    requires LinksBelow(blocks)
    requires b.origin.None? || forall j :: 0 <= j < |blocks| ==> blocks[j].id != b.origin.value
    ensures var r := Integrated(blocks, b); r[|blocks|].left.None? && r[|blocks|].right.None?
  {
  }

  /**
   * With a block carrying the origin, the new block goes right after the
   * last such block, unless that block's right neighbour has a smaller
   * client, in which case it goes one step further right.
   */
  lemma OriginPlacement(blocks: seq<YBlock>, b: YBlock, k: nat)
    requires LinksBelow(blocks) && k < |blocks| && b.origin == Some(blocks[k].id)
    requires forall j :: k < j < |blocks| ==> blocks[j].id != blocks[k].id
    ensures var r, next := Integrated(blocks, b)[|blocks|], blocks[k].right;
      if next.Some? && blocks[next.value].id.client < b.id.client then
        r.left == next && r.right == blocks[next.value].right
      else
        r.left == Some(k) && r.right == next
  {
    assert LastWithID(blocks, b.origin) == Some(k);
  }

  class Document {
    var blocks: seq<YBlock>
    const stateVector: StateVector

    ghost predicate Valid()
      reads this
    {
      LinksBelow(blocks)
    }

    /** `NewDocument`: no blocks and an empty state vector. */
    constructor ()
      ensures Valid() && blocks == [] && fresh(stateVector) && stateVector.entries == map[]
    {
      blocks := [];
      stateVector := new StateVector();
    }

    /**
     * `Integrate(block)`: find the last block with the block's origin and
     * its right neighbour, step right once on a smaller client, link the
     * block in between, append it and overwrite its client's clock.
     */
    method Integrate(block: YBlock)
      requires Valid()
      modifies this, stateVector
      ensures Valid() && blocks == Integrated(old(blocks), block)
      ensures stateVector.entries == old(stateVector.entries)[block.clientID := block.id.clock]
    {
      var left, right := Neighbours(block);
      var h := |blocks|;
      var placed := block.(left := left, right := right);
      if left.Some? {
        blocks := blocks[left.value := blocks[left.value].(right := Some(h))];
      }
      if right.Some? {
        blocks := blocks[right.value := blocks[right.value].(left := Some(h))];
      }
      blocks := blocks + [placed];
      stateVector.UpdateState(block.clientID, block.id.clock);
    }

    /** The search half of `Integrate`: scan for the last block with the origin, then apply the client tie-break. */
    method Neighbours(block: YBlock) returns (left: Option<nat>, right: Option<nat>)
      requires Valid()
      ensures (left, right) == Place(blocks, block)
    {
      left, right := None, None;
      for i := 0 to |blocks|
        invariant left == LastWithID(blocks[..i], block.origin)
        invariant right == if left.Some? then blocks[left.value].right else None
      {
        assert blocks[..i + 1][..i] == blocks[..i];
        if block.origin.Some? && blocks[i].id == block.origin.value {
          left := Some(i);
          right := blocks[i].right;
        }
      }
      assert blocks[..|blocks|] == blocks;
      if right.Some? && blocks[right.value].id.client < block.id.client {
        left := right;
        right := blocks[right.value].right;
      }
    }
  }

  // ---------------------------------------------------------------------
  // Transaction (research/yata/txn.go)
  // ---------------------------------------------------------------------

  /** The document's blocks after integrating `changes` in order. */
  function IntegratedAll(blocks: seq<YBlock>, changes: seq<YBlock>): (r: seq<YBlock>)
    requires LinksBelow(blocks)
    ensures LinksBelow(r) && |r| == |blocks| + |changes|
  {
    if changes == [] then blocks
    else Integrated(IntegratedAll(blocks, changes[..|changes| - 1]), changes[|changes| - 1])
  }

  /** The state vector after integrating `changes` in order: each change overwrites its client's clock. */
  function UpdatedAll(sv: map<nat, nat>, changes: seq<YBlock>): map<nat, nat>
  {
    if changes == [] then sv
    else var last := changes[|changes| - 1];
      UpdatedAll(sv, changes[..|changes| - 1])[last.clientID := last.id.clock]
  }

  /** Committing keeps the document's earlier blocks, up to their links. */
  lemma {:induction false} CommitKeeps(blocks: seq<YBlock>, changes: seq<YBlock>)
    requires LinksBelow(blocks)
    ensures var r := IntegratedAll(blocks, changes);
      forall i :: 0 <= i < |blocks| ==> SameBlock(r[i], blocks[i])
  {
    if changes != [] {
      var front := changes[..|changes| - 1];
      CommitKeeps(blocks, front);
      IntegratedKeeps(IntegratedAll(blocks, front), changes[|changes| - 1]);
    }
  }

  /** Committing appends the committed blocks after the earlier ones in list order, up to their links. */
  lemma {:induction false} CommitAppends(blocks: seq<YBlock>, changes: seq<YBlock>)
    requires LinksBelow(blocks)
    ensures var r := IntegratedAll(blocks, changes);
      forall j :: 0 <= j < |changes| ==> SameBlock(r[|blocks| + j], changes[j])
  {
    if changes != [] {
      var n := |changes| - 1;
      var front := changes[..n];
      var mid := IntegratedAll(blocks, front);
      var r := IntegratedAll(blocks, changes);
      CommitAppends(blocks, front);
      IntegratedKeeps(mid, changes[n]);
      forall j | 0 <= j < |changes|
        ensures SameBlock(r[|blocks| + j], changes[j])
      {
        if j < n {
          assert SameBlock(mid[|blocks| + j], front[j]);
        }
      }
    }
  }

  class Transaction {
    const document: Document
    var changes: seq<YBlock>

    /** `NewTransaction(doc)`: bound to `doc`, with no changes. */
    constructor (doc: Document)
      ensures document == doc && changes == []
    {
      document := doc;
      changes := [];
    }

    /** `AddChange`: one more change at the end. */
    method AddChange(block: YBlock)
      modifies this
      ensures changes == old(changes) + [block]
    {
      changes := changes + [block];
    }

    /** `Commit`: integrate the changes in list order; the change list stays as it is. */
    method Commit()
      requires document.Valid()
      modifies document, document.stateVector
      ensures document.Valid()
      ensures document.blocks == IntegratedAll(old(document.blocks), changes)
      ensures document.stateVector.entries == UpdatedAll(old(document.stateVector.entries), changes)
    {
      for i := 0 to |changes|
        invariant document.Valid()
        invariant document.blocks == IntegratedAll(old(document.blocks), changes[..i])
        invariant document.stateVector.entries == UpdatedAll(old(document.stateVector.entries), changes[..i])
      {
        assert changes[..i + 1][..i] == changes[..i];
        document.Integrate(changes[i]);
      }
      assert changes[..|changes|] == changes;
    }
  }
}
