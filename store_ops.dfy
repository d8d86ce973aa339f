/**
 * The store's public operations on the document (internal/blockstore/store.go):
 * `Integrate` of a block, local `Insert` and `Delete`, as functions on the
 * value `Store` of module StoreModel.  The class `BlockStore` runs them on
 * its fields.
 */
module StoreOps {
  import opened Wrappers
  import opened Blocks
  import opened Utils
  import opened Marker
  import opened StoreModel

  // ---------------------------------------------------------------------
  // Integrate
  // ---------------------------------------------------------------------

  /** A block whose `left`/`right` pointers point into the arena. */
  ghost predicate LinksIn(blk: Block, n: nat)
  {
    (blk.left.Some? ==> blk.left.value < n) && (blk.right.Some? ==> blk.right.value < n)
  }

  /**
   * The condition under which `Integrate` searches for the new block's left
   * neighbour: no left pointer and either no right pointer or a right block
   * without a left neighbour, or a left block whose right pointer is not the
   * new block's right pointer.
   */
  ghost predicate NeedsScan(nodes: seq<Block>, blk: Block)
    requires LinksIn(blk, |nodes|)
  {
    || (blk.left.None? && (blk.right.None? || nodes[blk.right.value].left.None?))
    || (blk.left.Some? && nodes[blk.left.value].right != blk.right)
  }

  /** The position of the list where the block `blk.right` is met walking right from `i`, or the end. */
  ghost function StopIndex(order: seq<Handle>, right: Option<Handle>, i: nat): (k: nat)
    requires i <= |order|
    ensures i <= k <= |order|
    ensures k < |order| ==> Some(order[k]) == right
    ensures forall j :: i <= j < k ==> Some(order[j]) != right
    decreases |order| - i
  {
    if i == |order| || Some(order[i]) == right then i else StopIndex(order, right, i + 1)
  }

  /**
   * The conflict-resolution loop of `Integrate`, walking the list from
   * position `i` up to (not including) `blk.right`.  `left` is the current
   * left neighbour, `conflicts` and `seen` the two ID sets of the loop.  A
   * block with the same left origin becomes the new left when its client is
   * smaller, and ends the walk when its client is not smaller and its right
   * origin is also the same; a block with another non-zero left origin
   * becomes the new left when that origin is in `seen` (it always is: it
   * was just added) and not in `conflicts`.
   *
   * The left neighbour it settles on is the one it started with or a block
   * it passed before reaching `blk.right`.
   */
  ghost function Scan(nodes: seq<Block>, order: seq<Handle>, blk: Block, i: nat,
                      left: Option<Handle>, conflicts: set<ID>, seen: set<ID>): (r: Option<Handle>)
    requires InArena(order, |nodes|) && i <= |order|
    ensures r == left || exists j :: i <= j < StopIndex(order, blk.right, i) && r == Some(order[j])
    decreases |order| - i
  {
    if i == |order| || Some(order[i]) == blk.right then left
    else
      var o := nodes[order[i]];
      var conflicts1 := conflicts + {o.id};
      var seen1 := if o.leftOrigin != ZeroID then seen + {o.leftOrigin} else seen;
      if EqualID(o.leftOrigin, blk.leftOrigin) then
        if o.id.client < blk.id.client then Scan(nodes, order, blk, i + 1, Some(order[i]), {}, seen1)
        else if EqualID(o.rightOrigin, blk.rightOrigin) then left
        else Scan(nodes, order, blk, i + 1, left, conflicts1, seen1)
      else if o.leftOrigin != ZeroID && o.leftOrigin in seen1 && o.leftOrigin !in conflicts1 then
        Scan(nodes, order, blk, i + 1, Some(order[i]), {}, seen1)
      else Scan(nodes, order, blk, i + 1, left, conflicts1, seen1)
  }

  /** The position just after `left` (the head of the list when `left` is nil). */
  ghost function GapAfter(order: seq<Handle>, left: Option<Handle>): (p: nat)
    requires left.Some? ==> left.value in order
    ensures p <= |order|
  {
    if left.None? then 0 else IndexOf(order, left.value) + 1
  }

  /** The left neighbour `Integrate` gives the new block. */
  ghost function IntegrateLeft(s: Store, blk: Block): (r: Option<Handle>)
    requires Valid(s) && LinksIn(blk, |s.nodes|)
    ensures r.Some? ==> r.value < |s.nodes|
  {
    if NeedsScan(s.nodes, blk) then
      Scan(s.nodes, s.order, blk, GapAfter(s.order, blk.left), blk.left, {}, {})
    else blk.left
  }

  /**
   * The reconnection half of `Integrate`: link the block in after `left`
   * (at the head when there is none), append it to its client's slice and
   * advance the state vector.
   */
  ghost function IntegrateAt(s: Store, blk: Block, left: Option<Handle>): (r: Store)
    requires Valid(s) && (left.Some? ==> left.value < |s.nodes|)
    ensures |r.nodes| == |s.nodes| + 1
  {
    var h := |s.nodes|;
    var right := if left.Some? then s.nodes[left.value].right else s.start;
    NextInArena(s, left);
    var c := blk.id.client;
    s.(nodes := LinkIn(s.nodes, left, right, blk),
       start := if left.None? then Some(h) else s.start,
       order := InsertAt(s.order, GapAfter(s.order, left), h),
       blocks := s.blocks[c := ClientBlocks(s.blocks, c) + [h]],
       stateVector := AdvanceState(s.stateVector, blk.id))
  }

  /** `Integrate(blk)`: choose the left neighbour, then link the block in after it. */
  ghost function IntegrateSpec(s: Store, blk: Block): (r: Store)
    requires Valid(s) && LinksIn(blk, |s.nodes|)
    ensures |r.nodes| == |s.nodes| + 1
  {
    IntegrateAt(s, blk, IntegrateLeft(s, blk))
  }

  /** The block after `left` (or the head) is the block at the gap after `left`. */
  lemma NextInArena(s: Store, left: Option<Handle>)
    requires Valid(s) && (left.Some? ==> left.value < |s.nodes|)
    ensures var right := if left.Some? then s.nodes[left.value].right else s.start;
      right == At(s.order, GapAfter(s.order, left)) && left == Before(s.order, GapAfter(s.order, left))
      && (right.Some? ==> right.value < |s.nodes|)
  {
    if left.Some? {
      Neighbours(s.nodes, s.order, IndexOf(s.order, left.value));
    }
  }

  /**
   * Integrate keeps the store valid, puts the new block at the gap after its
   * chosen left neighbour, keeps every other block's identity, flag, origins
   * and text, appends the block to its client's slice and advances the state
   * vector; the clock, length, markers, client and queues do not change.
   */
  lemma IntegrateValid(s: Store, blk: Block, left: Option<Handle>)
    requires Valid(s) && (left.Some? ==> left.value < |s.nodes|)
    ensures var r := IntegrateAt(s, blk, left);
      && Valid(r)
      && r.order == InsertAt(s.order, GapAfter(s.order, left), |s.nodes|)
      && Unchanged(blk, r.nodes[|s.nodes|], true)
      && (forall x :: 0 <= x < |s.nodes| ==> Unchanged(s.nodes[x], r.nodes[x], true))
      && ClientBlocks(r.blocks, blk.id.client) == ClientBlocks(s.blocks, blk.id.client) + [|s.nodes|]
      && (forall c :: c != blk.id.client ==> ClientBlocks(r.blocks, c) == ClientBlocks(s.blocks, c))
      && r.stateVector == AdvanceState(s.stateVector, blk.id)
      && r == s.(nodes := r.nodes, start := r.start, order := r.order, blocks := r.blocks, stateVector := r.stateVector)
  {
    IntegrateList(s, blk, left);
    IntegrateNodes(s, blk, left);
    IntegrateIndexed(s, blk, left);
  }

  lemma IntegrateList(s: Store, blk: Block, left: Option<Handle>)
    requires Valid(s) && (left.Some? ==> left.value < |s.nodes|)
    ensures var r := IntegrateAt(s, blk, left);
      && IsList(r.nodes, r.order) && r.start == StartOf(r.order)
      && r.order == InsertAt(s.order, GapAfter(s.order, left), |s.nodes|)
  {
    var p := GapAfter(s.order, left);
    NextInArena(s, left);
    LinkInList(s.nodes, s.order, p, blk);
  }

  lemma IntegrateNodes(s: Store, blk: Block, left: Option<Handle>)
    requires Valid(s) && (left.Some? ==> left.value < |s.nodes|)
    ensures var r := IntegrateAt(s, blk, left);
      && Unchanged(blk, r.nodes[|s.nodes|], true)
      && (forall x :: 0 <= x < |s.nodes| ==> Unchanged(s.nodes[x], r.nodes[x], true))
  {
    NextInArena(s, left);
    var right := if left.Some? then s.nodes[left.value].right else s.start;
    if left.Some? && right.Some? {
      var p := GapAfter(s.order, left);
      LinkInList(s.nodes, s.order, p, blk);
    }
    LinkInFacts(s.nodes, left, right, blk);
  }

  lemma IntegrateIndexed(s: Store, blk: Block, left: Option<Handle>)
    requires Valid(s) && (left.Some? ==> left.value < |s.nodes|)
    ensures var r := IntegrateAt(s, blk, left);
      && Indexed(r.nodes, r.blocks) && MarkersIn(r.markers, |r.nodes|)
      && ClientBlocks(r.blocks, blk.id.client) == ClientBlocks(s.blocks, blk.id.client) + [|s.nodes|]
      && (forall c :: c != blk.id.client ==> ClientBlocks(r.blocks, c) == ClientBlocks(s.blocks, c))
      && r.stateVector == AdvanceState(s.stateVector, blk.id)
      && r == s.(nodes := r.nodes, start := r.start, order := r.order, blocks := r.blocks, stateVector := r.stateVector)
  {
    IntegrateNodes(s, blk, left);
    var r := IntegrateAt(s, blk, left);
    assert r.nodes[|s.nodes|].id == blk.id;
  }

  /** The text after Integrate: the new block's visible text at the text offset of its gap. */
  lemma IntegrateText(s: Store, blk: Block, left: Option<Handle>)
    requires Valid(s) && (left.Some? ==> left.value < |s.nodes|)
    ensures Valid(IntegrateAt(s, blk, left))
    ensures var p := GapAfter(s.order, left);
      var q := TextBefore(s.nodes, s.order, p);
      q <= |Text(s)| &&
      Text(IntegrateAt(s, blk, left)) == Text(s)[..q] + blk.Visible() + Text(s)[q..]
  {
    var p := GapAfter(s.order, left);
    NextInArena(s, left);
    IntegrateValid(s, blk, left);
    LinkInText(s.nodes, s.order, p, blk);
    TextSplitAt(s.nodes, s.order, p);
  }

  /** The text of a list is the text before position `p` followed by the text from `p` on. */
  lemma TextSplitAt(nodes: seq<Block>, order: seq<Handle>, p: nat)
    requires InArena(order, |nodes|) && p <= |order|
    ensures InArena(order[..p], |nodes|) && InArena(order[p..], |nodes|)
    ensures var q := TextBefore(nodes, order, p);
      q <= |ContentOf(nodes, order)| &&
      ContentOf(nodes, order[..p]) == ContentOf(nodes, order)[..q] &&
      ContentOf(nodes, order[p..]) == ContentOf(nodes, order)[q..]
  {
    var a, b := order[..p], order[p..];
    assert a + b == order;
    ContentAppend(nodes, a, b);
    PrefixSuffix(ContentOf(nodes, order), ContentOf(nodes, a), ContentOf(nodes, b));
  }

  lemma PrefixSuffix(whole: string, a: string, b: string)
    requires whole == a + b
    ensures whole[..|a|] == a && whole[|a|..] == b
  {
  }

  /**
   * A block whose left pointer is set and whose left block points right to
   * the block's right pointer is not scanned: it goes right after its left
   * neighbour.
   */
  lemma IntegrateAdjacent(s: Store, blk: Block)
    requires Valid(s) && LinksIn(blk, |s.nodes|)
    requires blk.left.Some? && s.nodes[blk.left.value].right == blk.right
    ensures IntegrateLeft(s, blk) == blk.left
    ensures IntegrateSpec(s, blk).order == InsertAt(s.order, IndexOf(s.order, blk.left.value) + 1, |s.nodes|)
  {
  }

  /**
   * Wherever the scan settles, the new block lands after the block it named
   * as its left neighbour (or at the head) and before the first block of
   * the walk that is its right pointer: between its left and its right.
   */
  lemma IntegrateBetween(s: Store, blk: Block)
    requires Valid(s) && LinksIn(blk, |s.nodes|)
    ensures var p := GapAfter(s.order, IntegrateLeft(s, blk));
      var p0 := GapAfter(s.order, blk.left);
      p0 <= p <= StopIndex(s.order, blk.right, p0)
  {
    var p0 := GapAfter(s.order, blk.left);
    var left := IntegrateLeft(s, blk);
    if left != blk.left {
      var j :| p0 <= j < StopIndex(s.order, blk.right, p0) && left == Some(s.order[j]);
      IndexOfDistinct(s.order, j);
    }
  }

  // ---------------------------------------------------------------------
  // Concurrent inserts at the same place
  // ---------------------------------------------------------------------

  /** The IDs of the blocks of a list, in list order. */
  ghost function IdsOf(nodes: seq<Block>, order: seq<Handle>): (r: seq<ID>)
    requires InArena(order, |nodes|)
    ensures |r| == |order|
  {
    seq(|order|, i requires 0 <= i < |order| => nodes[order[i]].id)
  }

  /** Inserting handle `|nodes|` into a list inserts its ID into the list's IDs. */
  lemma IdsInsert(nodes: seq<Block>, nodes': seq<Block>, order: seq<Handle>, p: nat)
    requires InArena(order, |nodes|) && p <= |order| && |nodes| < |nodes'|
    requires forall x :: 0 <= x < |nodes| ==> nodes'[x].id == nodes[x].id
    ensures InArena(InsertAt(order, p, |nodes|), |nodes'|)
    ensures var ids := IdsOf(nodes, order);
      IdsOf(nodes', InsertAt(order, p, |nodes|)) == ids[..p] + [nodes'[|nodes|].id] + ids[p..]
  {
  }

  /**
   * Inserting `b` next to a just-inserted `a` (after it when `a`'s client
   * is smaller, before it otherwise) gives the merged sequence.
   */
  lemma InsertTwice(ids: seq<ID>, k: nat, a: ID, b: ID, once: seq<ID>, p: nat)
    requires k <= |ids| && once == ids[..k] + [a] + ids[k..]
    requires p == if a.client < b.client then k + 1 else k
    ensures p <= |once| && once[..p] + [b] + once[p..] == Merge(ids, k, Lo(a, b), Hi(a, b))
  {
    if a.client < b.client {
      assert once[..p] == ids[..k] + [a] && once[p..] == ids[k..];
    } else {
      assert once[..p] == ids[..k] && once[p..] == [a] + ids[k..];
    }
  }

  /** Two blocks meant for the same gap after `left`, written concurrently by different clients. */
  ghost predicate SameGap(s: Store, L: Handle, b1: Block, b2: Block)
    requires Valid(s)
  {
    && b1.left == Some(L) && LinksIn(b1, |s.nodes|)
    && b2.left == b1.left && b1.right == b2.right && b1.right == s.nodes[L].right
    && b1.leftOrigin == b2.leftOrigin && b1.rightOrigin == b2.rightOrigin
    && b1.id.client != b2.id.client
  }

  /** The IDs after Integrate: the new block's ID at the gap Integrate chose. */
  lemma IntegrateIds(s: Store, blk: Block, left: Option<Handle>)
    requires Valid(s) && (left.Some? ==> left.value < |s.nodes|)
    ensures var r := IntegrateAt(s, blk, left);
      var p := GapAfter(s.order, left);
      var ids := IdsOf(s.nodes, s.order);
      && InArena(r.order, |r.nodes|)
      && IdsOf(r.nodes, r.order) == ids[..p] + [blk.id] + ids[p..]
  {
    IntegrateList(s, blk, left);
    IntegrateNodes(s, blk, left);
    var r := IntegrateAt(s, blk, left);
    var p := GapAfter(s.order, left);
    IdsInsert(s.nodes, r.nodes, s.order, p);
  }

  /**
   * A block integrated at the gap after `L`, where the block `o` at
   * position `k` already sits with the same origins: the scan puts the new
   * block after `o` when `o`'s client is smaller and before it otherwise.
   */
  lemma {:induction false} ScanPastTwin(s: Store, blk: Block, k: nat)
    requires Valid(s) && LinksIn(blk, |s.nodes|)
    requires 1 <= k < |s.order| && blk.left == Some(s.order[k - 1])
    requires blk.right == At(s.order, k + 1)
    requires var o := s.nodes[s.order[k]];
      o.leftOrigin == blk.leftOrigin && o.rightOrigin == blk.rightOrigin && o.id.client != blk.id.client
    ensures GapAfter(s.order, IntegrateLeft(s, blk)) ==
      if s.nodes[s.order[k]].id.client < blk.id.client then k + 1 else k
  {
    var h := s.order[k];
    IndexOfDistinct(s.order, k - 1);
    IndexOfDistinct(s.order, k);
    Neighbours(s.nodes, s.order, k - 1);
    assert blk.right != Some(h) by {
      if k + 1 < |s.order| {
        assert s.order[k + 1] != s.order[k];
      }
    }
    assert NeedsScan(s.nodes, blk);
    assert GapAfter(s.order, blk.left) == k;
    TwinScan(s.nodes, s.order, blk, k, blk.left);
    if s.nodes[h].id.client < blk.id.client {
      assert IntegrateLeft(s, blk) == Some(h);
      assert GapAfter(s.order, Some(h)) == k + 1;
    } else {
      assert IntegrateLeft(s, blk) == blk.left;
    }
  }

  /**
   * The scan meeting, right at its start, a block with the same origins and
   * another client: it settles on that block when its client is smaller and
   * stops at once otherwise.
   */
  lemma TwinScan(nodes: seq<Block>, order: seq<Handle>, blk: Block, k: nat, left: Option<Handle>)
    requires InArena(order, |nodes|) && k < |order|
    requires blk.right == At(order, k + 1) && blk.right != Some(order[k])
    requires var o := nodes[order[k]];
      o.leftOrigin == blk.leftOrigin && o.rightOrigin == blk.rightOrigin && o.id.client != blk.id.client
    ensures Scan(nodes, order, blk, k, left, {}, {}) ==
      if nodes[order[k]].id.client < blk.id.client then Some(order[k]) else left
  {
    var o := nodes[order[k]];
    assert EqualID(o.leftOrigin, blk.leftOrigin);
    if o.id.client < blk.id.client {
      var seen1 := if o.leftOrigin != ZeroID then {o.leftOrigin} else {};
      assert Scan(nodes, order, blk, k + 1, Some(order[k]), {}, seen1) == Some(order[k]);
    } else {
      assert EqualID(o.rightOrigin, blk.rightOrigin);
    }
  }

  /** `ids` with `x` and then `y` inserted at `k`. */
  function Merge(ids: seq<ID>, k: nat, x: ID, y: ID): seq<ID>
    requires k <= |ids|
  {
    ids[..k] + [x, y] + ids[k..]
  }

  /** Of two concurrent IDs, the one of the smaller client ... */
  function Lo(a: ID, b: ID): ID
  {
    if a.client < b.client then a else b
  }

  /** ... and the other one. */
  function Hi(a: ID, b: ID): ID
  {
    if a.client < b.client then b else a
  }

  /** For IDs of two different clients, the tie-break does not depend on the order they are given in. */
  lemma TieSymmetric(a: ID, b: ID)
    requires a.client != b.client
    ensures Lo(a, b) == Lo(b, a) && Hi(a, b) == Hi(b, a)
  {
  }

  /** The merged IDs keep `ids` around the two new IDs, ordered by client. */
  lemma MergeFacts(ids: seq<ID>, k: nat, a: ID, b: ID)
    requires k <= |ids| && a.client != b.client
    ensures var r := Merge(ids, k, Lo(a, b), Hi(a, b));
      && |r| == |ids| + 2 && r[..k] == ids[..k] && r[k + 2..] == ids[k..]
      && multiset(r[k..k + 2]) == multiset{a, b}
      && r[k].client < r[k + 1].client
  {
    var r := Merge(ids, k, Lo(a, b), Hi(a, b));
    assert r[k..k + 2] == [Lo(a, b), Hi(a, b)];
  }


  /** The first of two blocks for the same gap lands in it, leaving the gap's right end after it. */
  lemma FirstOfTwo(s: Store, L: Handle, b1: Block, b2: Block)
    requires Valid(s) && SameGap(s, L, b1, b2)
    ensures var s1 := IntegrateSpec(s, b1);
      var k := IndexOf(s.order, L) + 1;
      var ids := IdsOf(s.nodes, s.order);
      && Valid(s1) && LinksIn(b2, |s1.nodes|) && k < |s1.order|
      && s1.order[k - 1] == L && s1.order[k] == |s.nodes|
      && b2.right == At(s1.order, k + 1)
      && Unchanged(b1, s1.nodes[|s.nodes|], true)
      && InArena(s1.order, |s1.nodes|)
      && IdsOf(s1.nodes, s1.order) == ids[..k] + [b1.id] + ids[k..]
  {
    var k := IndexOf(s.order, L) + 1;
    IntegrateAdjacent(s, b1);
    assert GapAfter(s.order, IntegrateLeft(s, b1)) == k;
    IntegrateValid(s, b1, b1.left);
    IntegrateIds(s, b1, b1.left);
    Neighbours(s.nodes, s.order, k - 1);
  }

  /**
   * The second of two blocks for the same gap, arriving after the first one
   * `b1` has landed at position `k`: it goes right after `b1` when `b1`'s
   * client is smaller, right before it otherwise.
   */
  lemma SecondOfTwo(s1: Store, b1: Block, b2: Block, k: nat)
    requires Valid(s1) && LinksIn(b2, |s1.nodes|)
    requires 1 <= k < |s1.order| && b2.left == Some(s1.order[k - 1]) && b2.right == At(s1.order, k + 1)
    requires Unchanged(b1, s1.nodes[s1.order[k]], true)
    requires b1.leftOrigin == b2.leftOrigin && b1.rightOrigin == b2.rightOrigin && b1.id.client != b2.id.client
    ensures var r := IntegrateSpec(s1, b2);
      var once := IdsOf(s1.nodes, s1.order);
      var p := if b1.id.client < b2.id.client then k + 1 else k;
      && InArena(r.order, |r.nodes|)
      && IdsOf(r.nodes, r.order) == once[..p] + [b2.id] + once[p..]
  {
    ScanPastTwin(s1, b2, k);
    IntegrateIds(s1, b2, IntegrateLeft(s1, b2));
  }

  /**
   * Integrating `b1` and then `b2` puts both right after their left
   * neighbour, the block of the smaller client first.
   */
  lemma {:induction false} TwoInserts(s: Store, L: Handle, b1: Block, b2: Block)
    requires Valid(s) && SameGap(s, L, b1, b2)
    ensures Valid(IntegrateSpec(s, b1))
    ensures var s1 := IntegrateSpec(s, b1);
      var r := IntegrateSpec(s1, b2);
      var k := IndexOf(s.order, L) + 1;
      var ids := IdsOf(s.nodes, s.order);
      && InArena(r.order, |r.nodes|)
      && IdsOf(r.nodes, r.order) == Merge(ids, k, Lo(b1.id, b2.id), Hi(b1.id, b2.id))
  {
    var k := IndexOf(s.order, L) + 1;
    FirstOfTwo(s, L, b1, b2);
    var s1 := IntegrateSpec(s, b1);
    SecondOfTwo(s1, b1, b2, k);
    var p := if b1.id.client < b2.id.client then k + 1 else k;
    InsertTwice(IdsOf(s.nodes, s.order), k, b1.id, b2.id, IdsOf(s1.nodes, s1.order), p);
  }

  /** `TwoInserts` with the blocks arriving the other way round. */
  lemma TwoInsertsSwapped(s: Store, L: Handle, b1: Block, b2: Block)
    requires Valid(s) && SameGap(s, L, b1, b2)
    ensures Valid(IntegrateSpec(s, b2))
    ensures var r := IntegrateSpec(IntegrateSpec(s, b2), b1);
      var k := IndexOf(s.order, L) + 1;
      && InArena(r.order, |r.nodes|)
      && IdsOf(r.nodes, r.order) == Merge(IdsOf(s.nodes, s.order), k, Lo(b1.id, b2.id), Hi(b1.id, b2.id))
  {
    TwoInserts(s, L, b2, b1);
    TieSymmetric(b1.id, b2.id);
  }

  /**
   * YATA's tie-break makes two concurrent inserts at the same gap commute:
   * whichever of the two blocks a replica integrates first, the document
   * ends with the same sequence of block IDs, the two new ones side by side
   * in the gap, the smaller client first.
   */
  lemma ConcurrentInsertsCommute(s: Store, L: Handle, b1: Block, b2: Block)
    requires Valid(s) && SameGap(s, L, b1, b2)
    ensures Valid(IntegrateSpec(s, b1)) && Valid(IntegrateSpec(s, b2))
    ensures var r12 := IntegrateSpec(IntegrateSpec(s, b1), b2);
      var r21 := IntegrateSpec(IntegrateSpec(s, b2), b1);
      var m := Merge(IdsOf(s.nodes, s.order), IndexOf(s.order, L) + 1, Lo(b1.id, b2.id), Hi(b1.id, b2.id));
      && InArena(r12.order, |r12.nodes|) && InArena(r21.order, |r21.nodes|)
      && IdsOf(r12.nodes, r12.order) == m && IdsOf(r21.nodes, r21.order) == m
  {
    TwoInserts(s, L, b1, b2);
    TwoInsertsSwapped(s, L, b1, b2);
  }

}
