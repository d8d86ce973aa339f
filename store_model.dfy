/**
 * The state of a block store (internal/blockstore/store.go) as a value, and
 * the specification functions for the store's internal steps: the state
 * vector update, `addBlock`, `SplitBlock`, the clean-start lookups and the
 * position search.  The class `BlockStore` implements each of them and
 * proves that it does exactly what the function here says.
 *
 * A Go panic is an explicit `Panic` failure; the state that comes with it is
 * whatever had been changed before the panic.
 */
module StoreModel {
  import opened Wrappers
  import opened Blocks
  import opened Events
  import opened Marker

  /** Why a store operation stopped. */
  datatype Failure =
    | MarkerFailure(err: MarkerError)
    | DeleteTooLong(length: nat, storeLength: nat)
    | Panic(reason: PanicReason)

  datatype PanicReason =
    | NilLeft                              // Insert dereferenced a nil `blockPos.Left`
    | NoMatchingBlock                      // FindIndexInBlockArrayByID found nothing
    | InvalidSplit(diff: int, length: nat) // SplitBlock outside 0 < diff < len
    | NoCleanStart                         // findIndexCleanStart found a block after the ID

  /**
   * The fields of `BlockStore`.  `nodes` is the arena every block pointer
   * points into and `order` the document order the pointers describe.
   */
  datatype Store = Store(
    nodes: seq<Block>,
    start: Option<Handle>,
    order: seq<Handle>,
    length: nat,
    clock: nat,
    blocks: map<int, seq<Handle>>,
    stateVector: map<int, nat>,
    markers: seq<Marker>,
    currentClient: int,
    pendingUpdates: seq<Update>,
    pendingDeletes: seq<DeleteUpdate>)

  /** `Blocks[c]`: a missing client has no blocks. */
  function ClientBlocks(blocks: map<int, seq<Handle>>, c: int): seq<Handle>
  {
    if c in blocks then blocks[c] else []
  }

  /** `StateVector[c]`: a missing client reads as 0. */
  function StateOf(sv: map<int, nat>, c: int): nat
  {
    if c in sv then sv[c] else 0
  }

  /** Every per-client slice holds valid handles of that client's blocks. */
  ghost predicate Indexed(nodes: seq<Block>, blocks: map<int, seq<Handle>>)
  {
    forall c, k :: c in blocks && 0 <= k < |blocks[c]| ==> blocks[c][k] < |nodes| && nodes[blocks[c][k]].id.client == c
  }

  /** The store invariant: the pointers form one list, `Start` is its head, and slices and markers point into the arena. */
  ghost predicate Valid(s: Store)
  {
    && IsList(s.nodes, s.order)
    && s.start == StartOf(s.order)
    && Indexed(s.nodes, s.blocks)
    && MarkersIn(s.markers, |s.nodes|)
  }

  lemma ClientBlocksIn(s: Store, c: int)
    requires Indexed(s.nodes, s.blocks)
    ensures InArena(ClientBlocks(s.blocks, c), |s.nodes|)
    ensures forall k :: 0 <= k < |ClientBlocks(s.blocks, c)| ==> s.nodes[ClientBlocks(s.blocks, c)[k]].id.client == c
  {
  }

  /** The document text: `Content()`. */
  ghost function Text(s: Store): string
    requires InArena(s.order, |s.nodes|)
  {
    ContentOf(s.nodes, s.order)
  }

  /** `NewStore`, with the random client ID passed in. */
  function NewStore(client: int): (s: Store)
    ensures Valid(s)
    ensures s.nodes == [] && s.start == None && s.length == 0 && s.clock == 0
    ensures s.markers == [] && s.currentClient == client
    ensures forall c :: ClientBlocks(s.blocks, c) == [] && StateOf(s.stateVector, c) == 0
  {
    Store([], None, [], 0, 0, map[], map[], [], client, [], [])
  }

  // ---------------------------------------------------------------------
  // updateState
  // ---------------------------------------------------------------------

  function Max(a: int, b: int): int
  {
    if a < b then b else a
  }

  /** `updateState`: the client's entry becomes the larger of itself and the block's clock. */
  function AdvanceState(sv: map<int, nat>, id: ID): (r: map<int, nat>)
    ensures StateOf(r, id.client) == Max(StateOf(sv, id.client), id.clock)
    ensures forall c :: c != id.client ==> StateOf(r, c) == StateOf(sv, c)
    ensures forall c :: StateOf(sv, c) <= StateOf(r, c)
  {
    if id.clock > StateOf(sv, id.client) then sv[id.client := id.clock] else sv
  }

  // ---------------------------------------------------------------------
  // addBlock
  // ---------------------------------------------------------------------

  function ClockOf(nodes: seq<Block>, hs: seq<Handle>, k: nat): int
    requires InArena(hs, |nodes|) && k < |hs|
  {
    nodes[hs[k]].id.clock
  }

  /** `sort.Search` for the first index of `hs[lo..hi]` whose clock exceeds `key`. */
  function SearchAbove(nodes: seq<Block>, hs: seq<Handle>, key: int, lo: nat, hi: nat): (i: nat)
    requires InArena(hs, |nodes|) && lo <= hi <= |hs|
    ensures lo <= i <= hi
    decreases hi - lo
  {
    if lo < hi then
      var mid := (lo + hi) / 2;
      if !(ClockOf(nodes, hs, mid) > key) then SearchAbove(nodes, hs, key, mid + 1, hi)
      else SearchAbove(nodes, hs, key, lo, mid)
    else lo
  }

  ghost predicate ClockSorted(nodes: seq<Block>, hs: seq<Handle>)
    requires InArena(hs, |nodes|)
  {
    forall j, k :: 0 <= j < k < |hs| ==> ClockOf(nodes, hs, j) <= ClockOf(nodes, hs, k)
  }

  /** On a clock-sorted slice the search finds the boundary between clocks `<= key` and clocks `> key`. */
  lemma {:induction false} SearchAboveSorted(nodes: seq<Block>, hs: seq<Handle>, key: int, lo: nat, hi: nat)
    requires InArena(hs, |nodes|) && lo <= hi <= |hs| && ClockSorted(nodes, hs)
    requires forall k :: 0 <= k < lo ==> ClockOf(nodes, hs, k) <= key
    requires forall k :: hi <= k < |hs| ==> ClockOf(nodes, hs, k) > key
    ensures var i := SearchAbove(nodes, hs, key, lo, hi);
      && (forall k :: 0 <= k < i ==> ClockOf(nodes, hs, k) <= key)
      && (forall k :: i <= k < |hs| ==> ClockOf(nodes, hs, k) > key)
    decreases hi - lo
  {
    if lo < hi {
      var mid := (lo + hi) / 2;
      if !(ClockOf(nodes, hs, mid) > key) {
        SearchAboveSorted(nodes, hs, key, mid + 1, hi);
      } else {
        SearchAboveSorted(nodes, hs, key, lo, mid);
      }
    }
  }

  /** `addBlock`: the handle goes into its client's slice at the searched index. */
  ghost function AddBlockSpec(s: Store, h: Handle): (r: Store)
    requires Indexed(s.nodes, s.blocks) && h < |s.nodes|
    ensures Indexed(r.nodes, r.blocks)
    ensures r == s.(blocks := r.blocks)
  {
    var c := s.nodes[h].id.client;
    var bs := ClientBlocks(s.blocks, c);
    ClientBlocksIn(s, c);
    var i := SearchAbove(s.nodes, bs, s.nodes[h].id.clock, 0, |bs|);
    IndexedInsert(s.nodes, s.blocks, c, i, h);
    s.(blocks := s.blocks[c := InsertAt(bs, i, h)])
  }

  /** Putting a block of client `c` into `c`'s slice keeps every slice pointing at its own client's blocks. */
  lemma IndexedInsert(nodes: seq<Block>, blocks: map<int, seq<Handle>>, c: int, i: nat, h: Handle)
    requires Indexed(nodes, blocks) && h < |nodes| && nodes[h].id.client == c
    requires i <= |ClientBlocks(blocks, c)|
    ensures Indexed(nodes, blocks[c := InsertAt(ClientBlocks(blocks, c), i, h)])
  {
    var bs := ClientBlocks(blocks, c);
    var bs' := InsertAt(bs, i, h);
    forall k | 0 <= k < |bs'|
      ensures bs'[k] < |nodes| && nodes[bs'[k]].id.client == c
    {
      if k < i {
        assert bs'[k] == bs[k];
      } else if i < k {
        assert bs'[k] == bs[k - 1];
      }
    }
  }

  /**
   * On a clock-sorted slice, `addBlock` puts the block after every block with
   * a clock not above its own and before every block with a larger clock; the
   * slice grows by one, keeps the other blocks in order and stays sorted.
   * Other clients' slices are untouched.
   */
  lemma AddBlockSorted(s: Store, h: Handle)
    requires Indexed(s.nodes, s.blocks) && h < |s.nodes|
    requires var c := s.nodes[h].id.client; ClockSorted(s.nodes, ClientBlocks(s.blocks, c))
    ensures var c := s.nodes[h].id.client;
      var bs := ClientBlocks(s.blocks, c);
      var r := AddBlockSpec(s, h);
      && (forall d :: d != c ==> ClientBlocks(r.blocks, d) == ClientBlocks(s.blocks, d))
      && (exists i :: 0 <= i <= |bs| && ClientBlocks(r.blocks, c) == InsertAt(bs, i, h) &&
            (forall k :: 0 <= k < i ==> ClockOf(s.nodes, bs, k) <= s.nodes[h].id.clock) &&
            (forall k :: i <= k < |bs| ==> ClockOf(s.nodes, bs, k) > s.nodes[h].id.clock))
      && ClockSorted(r.nodes, ClientBlocks(r.blocks, c))
  {
    var c := s.nodes[h].id.client;
    var bs := ClientBlocks(s.blocks, c);
    ClientBlocksIn(s, c);
    var key := s.nodes[h].id.clock;
    var i := SearchAbove(s.nodes, bs, key, 0, |bs|);
    SearchAboveSorted(s.nodes, bs, key, 0, |bs|);
    var r := AddBlockSpec(s, h);
    assert ClientBlocks(r.blocks, c) == InsertAt(bs, i, h);
    InsertSorted(s.nodes, bs, i, h);
  }

  /** Inserting a handle at the boundary between smaller-or-equal and larger clocks keeps a slice sorted. */
  lemma InsertSorted(nodes: seq<Block>, bs: seq<Handle>, i: nat, h: Handle)
    requires InArena(bs, |nodes|) && h < |nodes| && i <= |bs| && ClockSorted(nodes, bs)
    requires forall k :: 0 <= k < i ==> ClockOf(nodes, bs, k) <= nodes[h].id.clock
    requires forall k :: i <= k < |bs| ==> ClockOf(nodes, bs, k) > nodes[h].id.clock
    ensures InArena(InsertAt(bs, i, h), |nodes|) && ClockSorted(nodes, InsertAt(bs, i, h))
  {
    var bs' := InsertAt(bs, i, h);
    var key := nodes[h].id.clock;
    forall j, k | 0 <= j < k < |bs'|
      ensures ClockOf(nodes, bs', j) <= ClockOf(nodes, bs', k)
    {
      var cj := if j < i then ClockOf(nodes, bs, j) else if j == i then key else ClockOf(nodes, bs, j - 1);
      var ck := if k < i then ClockOf(nodes, bs, k) else if k == i then key else ClockOf(nodes, bs, k - 1);
      assert ClockOf(nodes, bs', j) == cj;
      assert ClockOf(nodes, bs', k) == ck;
      if k < i {
        assert ClockOf(nodes, bs, j) <= ClockOf(nodes, bs, k);
      } else if k == i {
        assert ClockOf(nodes, bs, j) <= key;
      } else if j < i {
        assert ClockOf(nodes, bs, j) <= key < ClockOf(nodes, bs, k - 1);
      } else if j == i {
        assert key < ClockOf(nodes, bs, k - 1);
      } else {
        assert ClockOf(nodes, bs, j - 1) <= ClockOf(nodes, bs, k - 1);
      }
    }
  }

  // ---------------------------------------------------------------------
  // SplitBlock
  // ---------------------------------------------------------------------

  /** The block `SplitBlock(t, diff)` creates: the tail of `t`, linked between `t` and its old right neighbour. */
  function TailOf(b: Block, t: Handle, diff: int): Block
    requires 0 <= diff <= |b.content|
  {
    Block(ID(b.id.clock + diff, b.id.client), b.content[diff..], b.isDeleted,
          ID(b.id.clock + diff - 1, b.id.client), b.rightOrigin, Some(t), b.right)
  }

  /** Block `b'` has `b`'s identity, flag and origins, and its text too when `sameText`. */
  ghost predicate Unchanged(b: Block, b': Block, sameText: bool)
  {
    && b'.id == b.id && b'.isDeleted == b.isDeleted
    && b'.leftOrigin == b.leftOrigin && b'.rightOrigin == b.rightOrigin
    && (sameText ==> b'.content == b.content)
  }

  /** The arena with `t` cut down to its first `diff` characters. */
  function HeadCut(nodes: seq<Block>, t: Handle, diff: int): (n: seq<Block>)
    requires t < |nodes| && 0 <= diff <= |nodes[t].content|
    ensures |n| == |nodes|
  {
    nodes[t := nodes[t].(content := nodes[t].content[..diff])]
  }

  lemma HeadCutFacts(nodes: seq<Block>, t: Handle, diff: int)
    requires t < |nodes| && 0 <= diff <= |nodes[t].content|
    ensures var n := HeadCut(nodes, t, diff);
      && (forall x :: 0 <= x < |nodes| ==> n[x].left == nodes[x].left && n[x].right == nodes[x].right)
      && (forall x :: 0 <= x < |nodes| ==> Unchanged(nodes[x], n[x], x != t))
  {
  }

  /** The arena after the pointer and text updates of `SplitBlock(t, diff)`. */
  ghost function SplitNodes(nodes: seq<Block>, order: seq<Handle>, t: Handle, diff: int): seq<Block>
    requires IsList(nodes, order) && t < |nodes| && 0 < diff < |nodes[t].content|
  {
    var k := IndexOf(order, t);
    LinkIn(HeadCut(nodes, t, diff), Before(order, k + 1), At(order, k + 1), TailOf(nodes[t], t, diff))
  }

  /** The list after the split: the new block right after `t`. */
  function SplitOrder(order: seq<Handle>, t: Handle, h: Handle): seq<Handle>
    requires t in order
  {
    InsertAt(order, IndexOf(order, t) + 1, h)
  }

  /**
   * `SplitBlock`'s pointer updates keep the list a list, with the new block
   * in between `t` and `t`'s old right neighbour and the same first block.
   */
  lemma SplitNodesList(nodes: seq<Block>, order: seq<Handle>, t: Handle, diff: int)
    requires IsList(nodes, order) && t < |nodes| && 0 < diff < |nodes[t].content|
    ensures var n := SplitNodes(nodes, order, t, diff);
      var o := SplitOrder(order, t, |nodes|);
      && IsList(n, o) && StartOf(o) == StartOf(order)
      && n[|nodes|] == TailOf(nodes[t], t, diff)
      && n[t].content == nodes[t].content[..diff]
      && forall x :: 0 <= x < |nodes| ==> Unchanged(nodes[x], n[x], x != t)
  {
    var k := IndexOf(order, t);
    var n := HeadCut(nodes, t, diff);
    HeadCutFacts(nodes, t, diff);
    SameLinks(nodes, n, order);
    Neighbours(nodes, order, k);
    LinkInList(n, order, k + 1, TailOf(nodes[t], t, diff));
    LinkInFacts(n, Before(order, k + 1), At(order, k + 1), TailOf(nodes[t], t, diff));
  }

  /** `SplitBlock`'s updates keep the text: the two halves sit side by side. */
  lemma SplitNodesText(nodes: seq<Block>, order: seq<Handle>, t: Handle, diff: int)
    requires IsList(nodes, order) && t < |nodes| && 0 < diff < |nodes[t].content|
    ensures InArena(SplitOrder(order, t, |nodes|), |nodes| + 1)
    ensures ContentOf(SplitNodes(nodes, order, t, diff), SplitOrder(order, t, |nodes|)) == ContentOf(nodes, order)
  {
    var k := IndexOf(order, t);
    var n := HeadCut(nodes, t, diff);
    HeadCutFacts(nodes, t, diff);
    SameLinks(nodes, n, order);
    LinkInText(n, order, k + 1, TailOf(nodes[t], t, diff));
    HeadText(nodes, order, k, diff);
  }

  /** The store after the pointer and text updates of `SplitBlock`, before `addBlock`. */
  ghost function SplitLinked(s: Store, t: Handle, diff: int): Store
    requires IsList(s.nodes, s.order) && t < |s.nodes| && 0 < diff < |s.nodes[t].content|
  {
    s.(nodes := SplitNodes(s.nodes, s.order, t, diff), order := SplitOrder(s.order, t, |s.nodes|))
  }

  lemma SplitLinkedValid(s: Store, t: Handle, diff: int)
    requires Valid(s) && t < |s.nodes| && 0 < diff < |s.nodes[t].content|
    ensures Valid(SplitLinked(s, t, diff)) && Text(SplitLinked(s, t, diff)) == Text(s)
  {
    SplitNodesList(s.nodes, s.order, t, diff);
    SplitNodesText(s.nodes, s.order, t, diff);
  }

  /** Cutting `t` (at position `k` of the list) to its head and then adding the tail spells the same text. */
  lemma HeadText(nodes: seq<Block>, order: seq<Handle>, k: nat, diff: int)
    requires InArena(order, |nodes|) && Distinct(order) && k < |order| && 0 < diff < |nodes[order[k]].content|
    ensures var n := HeadCut(nodes, order[k], diff);
      ContentOf(n, order[..k + 1]) + TailOf(nodes[order[k]], order[k], diff).Visible() + ContentOf(n, order[k + 1..])
        == ContentOf(nodes, order)
  {
    var t := order[k];
    var n := HeadCut(nodes, t, diff);
    HeadTextBefore(nodes, order, k, diff);
    HeadTextAfter(nodes, order, k, diff);
    TextAround(nodes, order, k);
    HeadAndTail(nodes[t], t, diff);
    Splice(ContentOf(nodes, order), ContentOf(nodes, order[..k]), nodes[t].Visible(), ContentOf(nodes, order[k + 1..]),
           ContentOf(n, order[..k + 1]), n[t].Visible(), TailOf(nodes[t], t, diff).Visible());
  }

  /** The visible texts of the head and the tail of a split block make up the block's visible text. */
  lemma HeadAndTail(b: Block, t: Handle, diff: int)
    requires 0 <= diff <= |b.content|
    ensures b.(content := b.content[..diff]).Visible() + TailOf(b, t, diff).Visible() == b.Visible()
  {
    assert b.content[..diff] + b.content[diff..] == b.content;
  }

  lemma Splice(whole: string, before: string, mid: string, after: string, withHead: string, head: string, tail: string)
    requires whole == before + mid + after
    requires withHead == before + head && head + tail == mid
    ensures withHead + tail + after == whole
  {
  }

  lemma HeadTextBefore(nodes: seq<Block>, order: seq<Handle>, k: nat, diff: int)
    requires InArena(order, |nodes|) && Distinct(order) && k < |order| && 0 < diff < |nodes[order[k]].content|
    ensures var n := HeadCut(nodes, order[k], diff);
      ContentOf(n, order[..k + 1]) == ContentOf(nodes, order[..k]) + n[order[k]].Visible()
  {
    var t := order[k];
    var n := HeadCut(nodes, t, diff);
    HeadCutFacts(nodes, t, diff);
    TextThrough(n, order, k);
    IndexOfDistinct(order, k);
    SameOutside(nodes, n, t, order[..k]);
  }

  lemma HeadTextAfter(nodes: seq<Block>, order: seq<Handle>, k: nat, diff: int)
    requires InArena(order, |nodes|) && Distinct(order) && k < |order| && 0 < diff < |nodes[order[k]].content|
    ensures var n := HeadCut(nodes, order[k], diff);
      ContentOf(n, order[k + 1..]) == ContentOf(nodes, order[k + 1..])
  {
    var t := order[k];
    var n := HeadCut(nodes, t, diff);
    HeadCutFacts(nodes, t, diff);
    IndexOfDistinct(order, k);
    SameOutside(nodes, n, t, order[k + 1..]);
  }

  lemma SameOutside(nodes: seq<Block>, n: seq<Block>, t: Handle, part: seq<Handle>)
    requires InArena(part, |nodes|) && |nodes| <= |n| && t !in part
    requires forall x :: 0 <= x < |nodes| ==> Unchanged(nodes[x], n[x], x != t)
    ensures ContentOf(n, part) == ContentOf(nodes, part)
  {
    forall i | 0 <= i < |part|
      ensures n[part[i]].Visible() == nodes[part[i]].Visible()
    {
      assert part[i] != t;
    }
    ContentSameVisible(nodes, n, part);
  }

  /** `SplitBlock(t, diff)`. */
  ghost function SplitSpec(s: Store, t: Handle, diff: int): (r: (Result<Handle, Failure>, Store))
    requires Valid(s) && t < |s.nodes|
    ensures Valid(r.1)
    ensures r.0.Err? <==> !(0 < diff < |s.nodes[t].content|)
    ensures r.0.Err? ==> r == (Err(Panic(InvalidSplit(diff, |s.nodes[t].content|))), s)
    ensures r.0.Ok? ==> r.0.value == |s.nodes| && |r.1.nodes| == |s.nodes| + 1
  {
    var b := s.nodes[t];
    if diff <= 0 || diff >= |b.content| then (Err(Panic(InvalidSplit(diff, |b.content|))), s)
    else
      SplitLinkedValid(s, t, diff);
      var s1 := SplitLinked(s, t, diff);
      (Ok(|s.nodes|), AddBlockSpec(s1, |s.nodes|))
  }

  /** `s'` is the store after a successful `SplitBlock(t, diff)` on `s`. */
  ghost predicate SplitsTo(s: Store, t: Handle, diff: int, s': Store)
    requires Valid(s)
  {
    t < |s.nodes| && 0 < diff < |s.nodes[t].content| && s' == SplitSpec(s, t, diff).1
  }

  /**
   * The arena after splitting `t` at `diff`: one block more, `t` keeps the
   * head of its text, the new block carries the tail with ID
   * `(client, clock + diff)`, left origin `(client, clock + diff - 1)` and
   * `t`'s right origin and deletion flag, and no other block's identity,
   * flag, origins or text changes.
   */
  ghost predicate SplitArena(nodes: seq<Block>, nodes': seq<Block>, t: Handle, diff: int)
    requires t < |nodes| && 0 <= diff <= |nodes[t].content|
  {
    && |nodes'| == |nodes| + 1
    && nodes'[t].content == nodes[t].content[..diff]
    && Unchanged(TailOf(nodes[t], t, diff), nodes'[|nodes|], true)
    && (forall x :: 0 <= x < |nodes| ==> Unchanged(nodes[x], nodes'[x], x != t))
  }

  /** Client `c`'s slice gains handle `h` at some index; every other client's slice is as it was. */
  ghost predicate SliceGains(blocks: map<int, seq<Handle>>, blocks': map<int, seq<Handle>>, c: int, h: Handle)
  {
    && (forall d :: d != c ==> ClientBlocks(blocks', d) == ClientBlocks(blocks, d))
    && (exists i :: 0 <= i <= |ClientBlocks(blocks, c)| && ClientBlocks(blocks', c) == InsertAt(ClientBlocks(blocks, c), i, h))
  }

  /**
   * What a successful `SplitBlock(t, diff)` does: the arena changes as
   * `SplitArena` says, the new block is linked right after `t`, only `t`'s
   * client slice changes, gaining the new block, the text of the document is
   * unchanged, and so is everything else in the store.
   */
  ghost predicate SplitAt(s: Store, s': Store, t: Handle, diff: int)
    requires Valid(s) && t < |s.nodes|
  {
    && 0 < diff < |s.nodes[t].content|
    && SplitArena(s.nodes, s'.nodes, t, diff)
    && s'.order == SplitOrder(s.order, t, |s.nodes|)
    && SliceGains(s.blocks, s'.blocks, s.nodes[t].id.client, |s.nodes|)
    && Valid(s') && Text(s') == Text(s)
    && s' == s.(nodes := s'.nodes, order := s'.order, blocks := s'.blocks)
  }

  /** A successful split has exactly the effect `SplitAt` describes. */
  lemma SplitEffect(s: Store, t: Handle, diff: int)
    requires Valid(s) && t < |s.nodes| && 0 < diff < |s.nodes[t].content|
    ensures SplitAt(s, SplitSpec(s, t, diff).1, t, diff)
  {
    SplitEffectArena(s, t, diff);
    SplitEffectSlices(s, t, diff);
    SplitEffectRest(s, t, diff);
  }

  lemma SplitEffectArena(s: Store, t: Handle, diff: int)
    requires Valid(s) && t < |s.nodes| && 0 < diff < |s.nodes[t].content|
    ensures SplitArena(s.nodes, SplitSpec(s, t, diff).1.nodes, t, diff)
    ensures SplitSpec(s, t, diff).1.order == SplitOrder(s.order, t, |s.nodes|)
  {
    SplitNodesList(s.nodes, s.order, t, diff);
  }

  lemma SplitEffectSlices(s: Store, t: Handle, diff: int)
    requires Valid(s) && t < |s.nodes| && 0 < diff < |s.nodes[t].content|
    ensures SliceGains(s.blocks, SplitSpec(s, t, diff).1.blocks, s.nodes[t].id.client, |s.nodes|)
  {
    SplitNodesList(s.nodes, s.order, t, diff);
    SplitLinkedValid(s, t, diff);
    AddBlockGains(SplitLinked(s, t, diff), |s.nodes|);
  }

  lemma SplitEffectRest(s: Store, t: Handle, diff: int)
    requires Valid(s) && t < |s.nodes| && 0 < diff < |s.nodes[t].content|
    ensures var s' := SplitSpec(s, t, diff).1;
      Valid(s') && Text(s') == Text(s) && s' == s.(nodes := s'.nodes, order := s'.order, blocks := s'.blocks)
  {
    SplitLinkedValid(s, t, diff);
  }

  /** `addBlock` inserts the handle into its client's slice and changes no other slice. */
  lemma AddBlockGains(s: Store, h: Handle)
    requires Indexed(s.nodes, s.blocks) && h < |s.nodes|
    ensures SliceGains(s.blocks, AddBlockSpec(s, h).blocks, s.nodes[h].id.client, h)
  {
    var c := s.nodes[h].id.client;
    var bs := ClientBlocks(s.blocks, c);
    ClientBlocksIn(s, c);
    var i := SearchAbove(s.nodes, bs, s.nodes[h].id.clock, 0, |bs|);
    assert ClientBlocks(AddBlockSpec(s, h).blocks, c) == InsertAt(bs, i, h);
  }

  // ---------------------------------------------------------------------
  // getItemCleanStart and its helpers
  // ---------------------------------------------------------------------

  /** The lookup condition of `FindIndexInBlockArrayByID`: same clock, or a clock inside the block's text. */
  predicate Covers(b: Block, id: ID)
  {
    b.id.clock == id.clock || id.clock < b.id.clock + |b.content|
  }

  /** The first index of `hs` whose block covers `id`. */
  function FirstCovering(nodes: seq<Block>, hs: seq<Handle>, id: ID): (r: Option<nat>)
    requires InArena(hs, |nodes|)
    ensures r.Some? ==> r.value < |hs| && Covers(nodes[hs[r.value]], id)
    ensures r.Some? ==> forall j :: 0 <= j < r.value ==> !Covers(nodes[hs[j]], id)
    ensures r.None? <==> forall j :: 0 <= j < |hs| ==> !Covers(nodes[hs[j]], id)
  {
    if hs == [] then None
    else if Covers(nodes[hs[0]], id) then Some(0)
    else match FirstCovering(nodes, hs[1..], id)
      case None => None
      case Some(k) => Some(k + 1)
  }

  /**
   * `findIndexCleanStart(hs, id)`: split the first block of `hs` covering
   * `id` at `id`'s clock and report the index after it.  No covering block,
   * a covering block that starts after `id`, or a split outside the block
   * each panic and leave the store as it was.
   */
  ghost function FindIndexCleanStartSpec(s: Store, hs: seq<Handle>, id: ID): (r: (Result<nat, Failure>, Store))
    requires Valid(s) && InArena(hs, |s.nodes|)
    ensures Valid(r.1)
    ensures r.0.Err? ==> r.1 == s
    ensures FirstCovering(s.nodes, hs, id).None? ==> r.0 == Err(Panic(NoMatchingBlock))
    ensures r.0.Ok? ==> 1 <= r.0.value <= |hs| && FirstCovering(s.nodes, hs, id) == Some(r.0.value - 1)
    ensures r.0.Ok? ==> var t := hs[r.0.value - 1];
      SplitSpec(s, t, s.nodes[t].OffsetOf(id)) == (Ok(|s.nodes|), r.1)
  {
    match FirstCovering(s.nodes, hs, id)
    case None => (Err(Panic(NoMatchingBlock)), s)
    case Some(k) =>
      var t := hs[k];
      if s.nodes[t].id.clock <= id.clock then
        var split := SplitSpec(s, t, s.nodes[t].OffsetOf(id));
        if split.0.Err? then (Err(split.0.error), split.1) else (Ok(k + 1), split.1)
      else (Err(Panic(NoCleanStart)), s)
  }

  /** Splitting adds one block to the slice of the split block's client. */
  lemma SplitGrowsSlice(s: Store, t: Handle, diff: int)
    requires Valid(s) && t < |s.nodes| && 0 < diff < |s.nodes[t].content|
    ensures |ClientBlocks(SplitSpec(s, t, diff).1.blocks, s.nodes[t].id.client)| == |ClientBlocks(s.blocks, s.nodes[t].id.client)| + 1
  {
    SplitLinkedValid(s, t, diff);
  }

  /** `findIndexCleanStart` only fails by panicking. */
  lemma FindIndexCleanStartPanics(s: Store, hs: seq<Handle>, id: ID)
    requires Valid(s) && InArena(hs, |s.nodes|)
    ensures var r := FindIndexCleanStartSpec(s, hs, id); r.0.Err? ==> r.0.error.Panic?
  {
    match FirstCovering(s.nodes, hs, id)
    case None =>
    case Some(k) =>
      var t := hs[k];
      if s.nodes[t].id.clock <= id.clock {
        var split := SplitSpec(s, t, s.nodes[t].OffsetOf(id));
      }
  }

  /**
   * `getItemCleanStart(id)`: split the block of `id`'s client covering `id`,
   * then return the block at the reported index of the client's grown slice.
   */
  ghost function GetItemCleanStartSpec(s: Store, id: ID): (r: (Result<Handle, Failure>, Store))
    requires Valid(s)
    ensures Valid(r.1)
    ensures r.0.Err? ==> r.1 == s
    ensures r.0.Ok? ==> r.0.value < |r.1.nodes| && |r.1.nodes| == |s.nodes| + 1
    ensures r.0.Ok? ==> exists t, diff :: SplitsTo(s, t, diff, r.1)
    ensures r.0.Err? ==> r.0.error.Panic?
  {
    var hs := ClientBlocks(s.blocks, id.client);
    ClientBlocksIn(s, id.client);
    var found := FindIndexCleanStartSpec(s, hs, id);
    FindIndexCleanStartPanics(s, hs, id);
    if found.0.Err? then (Err(found.0.error), found.1)
    else
      var t := hs[found.0.value - 1];
      var diff := s.nodes[t].OffsetOf(id);
      CleanStartGrows(s, id, hs, found.0.value, found.1);
      var hs' := ClientBlocks(found.1.blocks, id.client);
      ClientBlocksIn(found.1, id.client);
      assert SplitsTo(s, t, diff, found.1);
      (Ok(hs'[found.0.value]), found.1)
  }

  /** A successful `findIndexCleanStart` grows the client's slice by the split-off block. */
  lemma CleanStartGrows(s: Store, id: ID, hs: seq<Handle>, index: nat, s1: Store)
    requires Valid(s) && hs == ClientBlocks(s.blocks, id.client) && InArena(hs, |s.nodes|)
    requires FindIndexCleanStartSpec(s, hs, id) == (Ok(index), s1)
    ensures Valid(s1) && index < |ClientBlocks(s1.blocks, id.client)| && |s1.nodes| == |s.nodes| + 1
  {
    var t := hs[index - 1];
    SplitGrowsSlice(s, t, s.nodes[t].OffsetOf(id));
  }

  // ---------------------------------------------------------------------
  // findNextPosition and findPositionForNewBlock
  // ---------------------------------------------------------------------

  /** A cursor whose neighbours are blocks of the arena. */
  ghost predicate PositionIn(bp: ListPosition, n: nat)
  {
    (bp.left.Some? ==> bp.left.value < n) && (bp.right.Some? ==> bp.right.value < n)
  }

  /**
   * A cursor that sits in a gap of the list: its right block is what its left
   * block points to, or the head of the list when there is no left block.
   */
  ghost predicate Adjacent(s: Store, bp: ListPosition)
  {
    && PositionIn(bp, |s.nodes|)
    && (if bp.left.Some? then s.nodes[bp.left.value].right == bp.right else s.start == bp.right)
  }

  /** The cursor just past block `b` (handle `rt`), which started at `index`. */
  function Past(rt: Handle, b: Block, index: int): ListPosition
  {
    ListPosition(Some(rt), b.right, index + |b.content|)
  }

  /** The cursor moved over block `rt`: `rt` on its left, `rt`'s right neighbour on its right, `rt`'s length further on. */
  ghost function StepOver(s: Store, rt: Handle, index: int): (r: ListPosition)
    requires Valid(s) && rt < |s.nodes|
    ensures r == Past(rt, s.nodes[rt], index) && r.left == Some(rt) && r.right == s.nodes[rt].right
    ensures Adjacent(s, r)
  {
    Neighbours(s.nodes, s.order, IndexOf(s.order, rt));
    Past(rt, s.nodes[rt], index)
  }

  /**
   * `findNextPosition(bp, count)`: with a positive count and a live block on
   * the right, split that block `count` characters in when it is longer, then
   * step over (what remains of) it.  The cursor moves at most one block.
   */
  ghost function FindNextSpec(s: Store, bp: ListPosition, count: int): (r: (Result<ListPosition, Failure>, Store))
    requires Valid(s) && PositionIn(bp, |s.nodes|) && bp.right.Some?
    ensures Valid(r.1)
    ensures r.0.Ok? ==> PositionIn(r.0.value, |r.1.nodes|)
    ensures r.0.Err? ==> r.1 == s && r.0.error.Panic?
    ensures r.0.Ok? && Adjacent(s, bp) ==> Adjacent(r.1, r.0.value)
    ensures r.1 == s || exists t, diff :: SplitsTo(s, t, diff, r.1)
  {
    if count <= 0 then (Ok(bp), s)
    else
      var rt := bp.right.value;
      var b := s.nodes[rt];
      if !b.isDeleted then
        if count < |b.content| then
          var clean := GetItemCleanStartSpec(s, b.IdAt(count));
          if clean.0.Err? then (Err(clean.0.error), clean.1)
          else
            (Ok(StepOver(clean.1, rt, bp.index)), clean.1)
        else (Ok(StepOver(s, rt, bp.index)), s)
      else (Ok(bp), s)
  }

  /** `findNextPosition` when the cut of its right block succeeded: step over that block in the cut store. */
  lemma FindNextCut(s: Store, bp: ListPosition, count: int, clean: (Result<Handle, Failure>, Store))
    requires Valid(s) && PositionIn(bp, |s.nodes|) && bp.right.Some?
    requires 0 < count && !s.nodes[bp.right.value].isDeleted && count < |s.nodes[bp.right.value].content|
    requires clean == GetItemCleanStartSpec(s, s.nodes[bp.right.value].IdAt(count))
    requires clean.0.Ok? && bp.right.value < |clean.1.nodes|
    ensures FindNextSpec(s, bp, count).0 == Ok(StepOver(clean.1, bp.right.value, bp.index))
    ensures FindNextSpec(s, bp, count).1 == clean.1
  {
  }

  /** `findNextPosition` when its right block is no longer than the count: step over it. */
  lemma FindNextWhole(s: Store, bp: ListPosition, count: int)
    requires Valid(s) && PositionIn(bp, |s.nodes|) && bp.right.Some?
    requires 0 < count && !s.nodes[bp.right.value].isDeleted && count >= |s.nodes[bp.right.value].content|
    ensures FindNextSpec(s, bp, count) == (Ok(StepOver(s, bp.right.value, bp.index)), s)
  {
  }

  lemma MarkersStayIn(s: Store, ms: seq<Marker>)
    requires IsList(s.nodes, s.order) && MarkersOn(ms, s.order)
    ensures MarkersIn(ms, |s.nodes|)
  {
  }

  /**
   * `findPositionForNewBlock(index)`: find a marker, then move at most one
   * block from it by `index - marker.Pos` characters.
   */
  ghost function FindPositionSpec(s: Store, index: nat): (r: (Result<ListPosition, Failure>, Store))
    requires Valid(s)
    ensures Valid(r.1)
    ensures r.0.Ok? ==> Adjacent(r.1, r.0.value)
    ensures r.0.Err? ==> r.1 == s.(markers := r.1.markers) && !r.0.error.DeleteTooLong?
    ensures r.1.markers == s.markers || |r.1.markers| == |s.markers| + 1
    ensures MarkersIn(r.1.markers, |s.nodes|)
    ensures var s1 := s.(markers := r.1.markers);
      r.1 == s1 || exists t, diff :: SplitsTo(s1, t, diff, r.1)
  {
    MarkersOnList(s.markers, s.nodes, s.order);
    var found := FindMarkerSpec(s.markers, s.nodes, s.order, index);
    MarkersStayIn(s, found.1);
    var s1 := s.(markers := found.1);
    if found.0.Err? then (Err(MarkerFailure(found.0.error)), s1)
    else
      var m := found.0.value;
      Neighbours(s.nodes, s.order, IndexOf(s.order, m.block));
      FindNextSpec(s1, ListPosition(s.nodes[m.block].left, Some(m.block), m.pos), m.Beyond(index))
  }
}
