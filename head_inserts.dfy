/**
 * Two blocks integrated at the head of a non-empty document
 * (internal/blockstore/store.go:166-168).
 *
 * As written, `Integrate` scans for a block without a left pointer only
 * when its right block has no left neighbour either.  At the head of the
 * document that holds for the first of two concurrent blocks and fails for
 * the second, whose right block has meanwhile gained the first as its left
 * neighbour: the second one is put at the head without looking at the
 * first, so the two blocks end in reverse arrival order and two replicas
 * that receive them in different orders diverge.  Yjs scans exactly when
 * that right block HAS a left neighbour; with that condition both replicas
 * put the two blocks in client order.
 */
module HeadInserts {
  import opened Wrappers
  import opened Blocks
  import opened StoreModel
  import opened StoreOps

  /** Two blocks written concurrently, by different clients, for the head of a non-empty document. */
  ghost predicate SameHead(s: Store, b1: Block, b2: Block)
  {
    && s.start.Some? && b1.left.None? && b1.right == s.start
    && b2.left.None? && b2.right == s.start
    && b1.leftOrigin == b2.leftOrigin && b1.rightOrigin == b2.rightOrigin
    && b1.id.client != b2.id.client
  }

  /**
   * `s1` holds `b1` at its head, and `b2`, another client's block with the
   * same origins, is meant for the head of the document `b1` arrived in.
   */
  ghost predicate HeadLanded(s1: Store, b1: Block, b2: Block)
  {
    && Valid(s1) && 2 <= |s1.order| && b2.left.None? && b2.right == Some(s1.order[1])
    && Unchanged(b1, s1.nodes[s1.order[0]], true)
    && b1.leftOrigin == b2.leftOrigin && b1.rightOrigin == b2.rightOrigin && b1.id.client != b2.id.client
  }

  // ---------------------------------------------------------------------
  // As written
  // ---------------------------------------------------------------------

  /** A block for the head, arriving first: the scan stops at once at its right block, so it goes to the head. */
  lemma FirstAtHead(s: Store, blk: Block)
    requires Valid(s) && s.start.Some? && blk.left.None? && blk.right == s.start
    ensures LinksIn(blk, |s.nodes|) && IntegrateLeft(s, blk) == None
  {
    Neighbours(s.nodes, s.order, 0);
    assert NeedsScan(s.nodes, blk);
  }

  /**
   * A block without a left pointer whose right block is the second of the
   * list: that block has a left neighbour, so there is no scan and the new
   * block goes to the head.
   */
  lemma SecondAtHead(s: Store, blk: Block)
    requires Valid(s) && 2 <= |s.order| && blk.left.None? && blk.right == Some(s.order[1])
    ensures LinksIn(blk, |s.nodes|) && IntegrateLeft(s, blk) == None
  {
    Neighbours(s.nodes, s.order, 1);
    assert !NeedsScan(s.nodes, blk);
  }

  /** The first of two head blocks, as written: it goes to the head. */
  lemma FirstLandsAtHead(s: Store, b1: Block, b2: Block)
    requires Valid(s) && SameHead(s, b1, b2)
    ensures LinksIn(b1, |s.nodes|)
    ensures var s1 := IntegrateSpec(s, b1);
      && HeadLanded(s1, b1, b2) && InArena(s1.order, |s1.nodes|)
      && IdsOf(s1.nodes, s1.order) == [b1.id] + IdsOf(s.nodes, s.order)
  {
    FirstAtHead(s, b1);
    IntegrateValid(s, b1, None);
    IntegrateIds(s, b1, None);
    var s1 := IntegrateSpec(s, b1);
    assert s1.order[0] == |s.nodes| && s1.order[1] == s.order[0];
    AtFront(IdsOf(s.nodes, s.order), b1.id);
  }

  /** The second of two head blocks, as written: it also goes to the head, before the first. */
  lemma SecondLandsAtHead(s1: Store, b1: Block, b2: Block)
    requires HeadLanded(s1, b1, b2)
    ensures Valid(s1) && LinksIn(b2, |s1.nodes|)
    ensures var r := IntegrateSpec(s1, b2);
      && InArena(r.order, |r.nodes|)
      && IdsOf(r.nodes, r.order) == [b2.id] + IdsOf(s1.nodes, s1.order)
  {
    SecondAtHead(s1, b2);
    IntegrateIds(s1, b2, None);
    AtFront(IdsOf(s1.nodes, s1.order), b2.id);
  }

  /** Inserting at position 0 puts in front. */
  lemma AtFront(ids: seq<ID>, a: ID)
    ensures ids[..0] + [a] + ids[0..] == [a] + ids
  {
  }

  /** Integrating `b1` and then `b2`, both meant for the head: `b2` ends up first. */
  lemma {:induction false} HeadInsertsAsWritten(s: Store, b1: Block, b2: Block)
    requires Valid(s) && SameHead(s, b1, b2)
    ensures LinksIn(b1, |s.nodes|) && Valid(IntegrateSpec(s, b1))
    ensures var s1 := IntegrateSpec(s, b1);
      LinksIn(b2, |s1.nodes|) &&
      var r := IntegrateSpec(s1, b2);
      && InArena(r.order, |r.nodes|)
      && IdsOf(r.nodes, r.order) == [b2.id, b1.id] + IdsOf(s.nodes, s.order)
  {
    FirstLandsAtHead(s, b1, b2);
    SecondLandsAtHead(IntegrateSpec(s, b1), b1, b2);
  }

  /**
   * The divergence: two replicas that integrate the same two head blocks in
   * different orders end with different sequences of block IDs.
   */
  lemma HeadInsertsDiverge(s: Store, b1: Block, b2: Block)
    requires Valid(s) && SameHead(s, b1, b2)
    ensures LinksIn(b1, |s.nodes|) && LinksIn(b2, |s.nodes|)
    ensures Valid(IntegrateSpec(s, b1)) && Valid(IntegrateSpec(s, b2))
    ensures LinksIn(b2, |IntegrateSpec(s, b1).nodes|) && LinksIn(b1, |IntegrateSpec(s, b2).nodes|)
    ensures var r12 := IntegrateSpec(IntegrateSpec(s, b1), b2);
      var r21 := IntegrateSpec(IntegrateSpec(s, b2), b1);
      && InArena(r12.order, |r12.nodes|) && InArena(r21.order, |r21.nodes|)
      && IdsOf(r12.nodes, r12.order) != IdsOf(r21.nodes, r21.order)
  {
    HeadInsertsAsWritten(s, b1, b2);
    HeadInsertsAsWritten(s, b2, b1);
    var r12 := IntegrateSpec(IntegrateSpec(s, b1), b2);
    var r21 := IntegrateSpec(IntegrateSpec(s, b2), b1);
    assert IdsOf(r12.nodes, r12.order)[0] == b2.id;
    assert IdsOf(r21.nodes, r21.order)[0] == b1.id;
  }

  // ---------------------------------------------------------------------
  // Corrected
  // ---------------------------------------------------------------------

  /** The scan condition of Yjs: no left pointer and either no right pointer or a right block WITH a left neighbour. */
  ghost predicate NeedsScanFixed(nodes: seq<Block>, blk: Block)
    requires LinksIn(blk, |nodes|)
  {
    || (blk.left.None? && (blk.right.None? || nodes[blk.right.value].left.Some?))
    || (blk.left.Some? && nodes[blk.left.value].right != blk.right)
  }

  /** The left neighbour under the corrected condition; the scan itself is unchanged. */
  ghost function FixedLeft(s: Store, blk: Block): (r: Option<Handle>)
    requires Valid(s) && LinksIn(blk, |s.nodes|)
    ensures r.Some? ==> r.value < |s.nodes|
  {
    if NeedsScanFixed(s.nodes, blk) then
      Scan(s.nodes, s.order, blk, GapAfter(s.order, blk.left), blk.left, {}, {})
    else blk.left
  }

  /** `Integrate` with the corrected scan condition. */
  ghost function IntegrateFixed(s: Store, blk: Block): (r: Store)
    requires Valid(s) && LinksIn(blk, |s.nodes|)
    ensures |r.nodes| == |s.nodes| + 1
  {
    IntegrateAt(s, blk, FixedLeft(s, blk))
  }

  /** The two conditions differ only for blocks without a left pointer: with one, the corrected Integrate is Integrate. */
  lemma FixedWithLeft(s: Store, blk: Block)
    requires Valid(s) && LinksIn(blk, |s.nodes|) && blk.left.Some?
    ensures FixedLeft(s, blk) == IntegrateLeft(s, blk) && IntegrateFixed(s, blk) == IntegrateSpec(s, blk)
  {
  }

  /** The first of two head blocks under the corrected condition: no scan, it goes to the head. */
  lemma FirstFixedAtHead(s: Store, b1: Block, b2: Block)
    requires Valid(s) && SameHead(s, b1, b2)
    ensures LinksIn(b1, |s.nodes|)
    ensures var s1 := IntegrateFixed(s, b1);
      var ids := IdsOf(s.nodes, s.order);
      && HeadLanded(s1, b1, b2) && InArena(s1.order, |s1.nodes|)
      && IdsOf(s1.nodes, s1.order) == ids[..0] + [b1.id] + ids[0..]
  {
    Neighbours(s.nodes, s.order, 0);
    assert FixedLeft(s, b1) == None;
    IntegrateValid(s, b1, None);
    IntegrateIds(s, b1, None);
    var s1 := IntegrateFixed(s, b1);
    assert s1.order[0] == |s.nodes| && s1.order[1] == s.order[0];
  }

  /**
   * The second of two head blocks under the corrected condition: its right
   * block has the first as left neighbour, so it scans from the head, meets
   * the first and lands after it when the first's client is smaller, before
   * it otherwise.
   */
  lemma SecondFixedAtHead(s1: Store, b1: Block, b2: Block)
    requires HeadLanded(s1, b1, b2)
    ensures Valid(s1) && LinksIn(b2, |s1.nodes|)
    ensures var r := IntegrateFixed(s1, b2);
      var once := IdsOf(s1.nodes, s1.order);
      var p := if b1.id.client < b2.id.client then 1 else 0;
      && InArena(r.order, |r.nodes|)
      && IdsOf(r.nodes, r.order) == once[..p] + [b2.id] + once[p..]
  {
    Neighbours(s1.nodes, s1.order, 1);
    assert NeedsScanFixed(s1.nodes, b2);
    TwinScan(s1.nodes, s1.order, b2, 0, None);
    var left := FixedLeft(s1, b2);
    var p := if b1.id.client < b2.id.client then 1 else 0;
    assert GapAfter(s1.order, left) == p by {
      if left.Some? {
        IndexOfDistinct(s1.order, 0);
      }
    }
    IntegrateIds(s1, b2, left);
  }

  /**
   * Integrating `b1` and then `b2`, both meant for the head, with the
   * corrected condition: the two end in client order.
   */
  lemma {:induction false} HeadInsertsFixed(s: Store, b1: Block, b2: Block)
    requires Valid(s) && SameHead(s, b1, b2)
    ensures LinksIn(b1, |s.nodes|) && Valid(IntegrateFixed(s, b1))
    ensures var s1 := IntegrateFixed(s, b1);
      LinksIn(b2, |s1.nodes|) &&
      var r := IntegrateFixed(s1, b2);
      && InArena(r.order, |r.nodes|)
      && IdsOf(r.nodes, r.order) == Merge(IdsOf(s.nodes, s.order), 0, Lo(b1.id, b2.id), Hi(b1.id, b2.id))
  {
    FirstFixedAtHead(s, b1, b2);
    var s1 := IntegrateFixed(s, b1);
    SecondFixedAtHead(s1, b1, b2);
    var p := if b1.id.client < b2.id.client then 1 else 0;
    InsertTwice(IdsOf(s.nodes, s.order), 0, b1.id, b2.id, IdsOf(s1.nodes, s1.order), p);
  }

  /**
   * With the corrected condition two concurrent head inserts commute: both
   * arrival orders give the same IDs, the smaller client first.
   */
  lemma HeadInsertsConverge(s: Store, b1: Block, b2: Block)
    requires Valid(s) && SameHead(s, b1, b2)
    ensures LinksIn(b1, |s.nodes|) && LinksIn(b2, |s.nodes|)
    ensures Valid(IntegrateFixed(s, b1)) && Valid(IntegrateFixed(s, b2))
    ensures LinksIn(b2, |IntegrateFixed(s, b1).nodes|) && LinksIn(b1, |IntegrateFixed(s, b2).nodes|)
    ensures var r12 := IntegrateFixed(IntegrateFixed(s, b1), b2);
      var r21 := IntegrateFixed(IntegrateFixed(s, b2), b1);
      && InArena(r12.order, |r12.nodes|) && InArena(r21.order, |r21.nodes|)
      && IdsOf(r12.nodes, r12.order) == IdsOf(r21.nodes, r21.order)
  {
    HeadInsertsFixed(s, b1, b2);
    HeadInsertsFixed(s, b2, b1);
    TieSymmetric(b1.id, b2.id);
  }
}
