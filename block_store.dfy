/**
 * The `BlockStore` object of internal/blockstore/store.go.  Its fields are
 * the fields of the value `Store` (module StoreModel), with the markers
 * kept in their own `MarkerSystem` object as in Go.  Every method changes
 * the fields step by step as the Go method does, and states that the new
 * state is what the specification function of its operation gives for the
 * old one; the properties of those functions are proved in StoreModel,
 * StoreOps, StoreEdit and StoreDelete.
 */
module BlockStores {
  import opened Wrappers
  import opened Blocks
  import opened Events
  import opened Utils
  import opened Marker
  import opened StoreModel
  import opened StoreOps
  import opened StoreEdit
  import opened StoreDelete

  // ---------------------------------------------------------------------
  // The read-only lookups, as specifications
  // ---------------------------------------------------------------------

  /** The first index of `hs` whose block has exactly the clock `clock`. */
  function FirstWithClock(nodes: seq<Block>, hs: seq<Handle>, clock: int): (r: Option<nat>)
    requires InArena(hs, |nodes|)
    ensures r.Some? ==> r.value < |hs| && nodes[hs[r.value]].id.clock == clock
    ensures r.Some? ==> forall j :: 0 <= j < r.value ==> nodes[hs[j]].id.clock != clock
    ensures r.None? <==> forall j :: 0 <= j < |hs| ==> nodes[hs[j]].id.clock != clock
  {
    if hs == [] then None
    else if nodes[hs[0]].id.clock == clock then Some(0)
    else match FirstWithClock(nodes, hs[1..], clock)
      case None => None
      case Some(k) => Some(k + 1)
  }

  /** Go's conversion of a signed 64-bit value to `uint64`: the value modulo 2^64. */
  function ToU64(x: int): (r: nat)
    ensures r < U64 && (0 <= x < U64 ==> r == x)
  {
    x % U64
  }

  /** The blocks of `hs` whose clock lies in `[lo, hi)`, in slice order. */
  function InRange(nodes: seq<Block>, hs: seq<Handle>, lo: int, hi: int): (r: seq<Handle>)
    requires InArena(hs, |nodes|)
    ensures InArena(r, |nodes|) && |r| <= |hs|
  {
    if hs == [] then []
    else
      var rest := InRange(nodes, hs[1..], lo, hi);
      if lo <= nodes[hs[0]].id.clock < hi then [hs[0]] + rest else rest
  }

  /** `InRange` keeps exactly the blocks with a clock in range. */
  lemma {:induction false} InRangeMembers(nodes: seq<Block>, hs: seq<Handle>, lo: int, hi: int, h: Handle)
    requires InArena(hs, |nodes|)
    ensures h in InRange(nodes, hs, lo, hi) <==> h in hs && h < |nodes| && lo <= nodes[h].id.clock < hi
  {
    if hs != [] {
      InRangeMembers(nodes, hs[1..], lo, hi, h);
      assert h in hs <==> h == hs[0] || h in hs[1..] by {
        assert hs == [hs[0]] + hs[1..];
      }
    }
  }

  /** `GetMissing`'s test of one origin: non-zero, of another client, and beyond what the store has seen of it. */
  predicate MissingOrigin(sv: map<int, nat>, blk: Block, origin: ID)
  {
    origin != ZeroID && origin.client != blk.id.client && origin.clock > StateOf(sv, origin.client)
  }

  /** `Integrate` reads neither the clock nor the length, so setting them first or after is the same. */
  lemma IntegrateIgnoresCounters(s: Store, blk: Block, clock: nat, length: nat)
    requires Valid(s) && LinksIn(blk, |s.nodes|)
    ensures var s' := s.(clock := clock, length := length);
      Valid(s') && IntegrateSpec(s', blk) == IntegrateSpec(s, blk).(clock := clock, length := length)
  {
    var s' := s.(clock := clock, length := length);
    assert IntegrateLeft(s', blk) == IntegrateLeft(s, blk);
  }

  /** `InsertAfter` is: tick the clock, integrate the local block, add the length. */
  lemma InsertAfterReady(s: Store, bp: ListPosition, content: string, s1: Store, blk: Block)
    requires Valid(s) && PositionIn(bp, |s.nodes|) && bp.left.Some?
    requires s1 == s.(clock := s.clock + 1) && blk == LocalBlock(s, bp, content)
    ensures Valid(s1) && LinksIn(blk, |s1.nodes|)
  {
  }

  /**
   * `Insert` after the cursor is its three steps: take the next clock
   * (`s1`), integrate the new block (`s2`), add the length (`s3`).
   */
  lemma InsertAfterSteps(s: Store, bp: ListPosition, content: string, s1: Store, blk: Block, s2: Store, s3: Store)
    requires Valid(s) && PositionIn(bp, |s.nodes|) && bp.left.Some?
    requires s1 == s.(clock := s.clock + 1) && blk == LocalBlock(s, bp, content)
    requires Valid(s1) && LinksIn(blk, |s1.nodes|) && s2 == IntegrateSpec(s1, blk)
    requires s3 == s2.(length := s2.length + |content|)
    ensures s3 == InsertAfter(s, bp, content)
  {
    IntegrateIgnoresCounters(s, blk, s.clock + 1, s.length);
  }

  /** A round of `Delete`'s loop after the cut: subtract, tombstone, step over. */
  lemma RoundSteps(s: Store, bp: ListPosition, length: nat)
    requires CanStep(s, bp, length)
    ensures var rt := bp.right.value;
      var s1 := CutAt(s, rt, length).1;
      var nodes' := s1.nodes[rt := s1.nodes[rt].MarkDeleted()];
      var n := Step(s, bp, length);
      && rt < |s1.nodes|
      && n.store == s1.(nodes := nodes')
      && n.cursor == bp.Forward(nodes')
      && n.left == Sub64(length, |s1.nodes[rt].content|)
  {
  }

  // ---------------------------------------------------------------------
  // The store object
  // ---------------------------------------------------------------------

  /** The steps of `getItemCleanStart` after a successful `findIndexCleanStart`. */
  lemma CleanStartSteps(s: Store, id: ID, hs: seq<Handle>, index: nat, s1: Store)
    requires Valid(s) && hs == ClientBlocks(s.blocks, id.client) && InArena(hs, |s.nodes|)
    requires FindIndexCleanStartSpec(s, hs, id) == (Ok(index), s1)
    requires Valid(s1) && index < |ClientBlocks(s1.blocks, id.client)|
    ensures GetItemCleanStartSpec(s, id) == (Ok(ClientBlocks(s1.blocks, id.client)[index]), s1)
  {
  }

  /**
   * The scan of `Integrate`: walk from `o`, the block at position `i0` of
   * the list, up to `blk.right`, and pick the left neighbour by the origin
   * and client tie-breaks.
   */
  method ScanLeft(nodes: seq<Block>, ghost order: seq<Handle>, blk: Block, ghost i0: nat, o0: Option<Handle>)
    returns (left: Option<Handle>)
    requires InArena(order, |nodes|) && Linked(nodes, order) && i0 <= |order| && o0 == At(order, i0)
    ensures left == Scan(nodes, order, blk, i0, blk.left, {}, {})
  {
    left := blk.left;
    var o := o0;
    var conflicts: set<ID> := {};
    var seen: set<ID> := {};
    ghost var i: nat := i0;
    ghost var chosen := Scan(nodes, order, blk, i0, blk.left, {}, {});
    while o.Some? && o != blk.right
      invariant i <= |order| && o == At(order, i)
      invariant Scan(nodes, order, blk, i, left, conflicts, seen) == chosen
      decreases |order| - i
    {
      assert i < |order| && o.value == order[i];
      var b := nodes[o.value];
      Neighbours(nodes, order, i);
      conflicts := conflicts + {b.id};
      if b.leftOrigin != ZeroID {
        seen := seen + {b.leftOrigin};
      }
      if EqualID(b.leftOrigin, blk.leftOrigin) {
        if b.id.client < blk.id.client {
          left := o;
          conflicts := {};
        } else if EqualID(b.rightOrigin, blk.rightOrigin) {
          return;
        }
      } else if b.leftOrigin != ZeroID {
        if b.leftOrigin in seen && b.leftOrigin !in conflicts {
          left := o;
          conflicts := {};
        }
      }
      o := b.right;
      i := i + 1;
    }
  }

  /** The walk of `Content`: from `curr`, the head of the list, append the text of every live block. */
  method Spell(nodes: seq<Block>, ghost order: seq<Handle>, curr0: Option<Handle>) returns (text: string)
    requires InArena(order, |nodes|) && Linked(nodes, order) && curr0 == At(order, 0)
    ensures text == ContentOf(nodes, order)
  {
    var curr := curr0;
    text := "";
    ghost var i := 0;
    while curr.Some?
      invariant i <= |order| && curr == At(order, i)
      invariant text == ContentOf(nodes, order[..i])
      decreases |order| - i
    {
      var b := nodes[curr.value];
      Neighbours(nodes, order, i);
      if !b.isDeleted {
        text := text + b.content;
      }
      assert order[..i + 1][..i] == order[..i];
      curr := b.right;
      i := i + 1;
    }
    assert order[..i] == order;
  }

  /** The binary search of `addBlock` (`sort.Search`): the first index of `hs` whose block's clock exceeds `key`. */
  method SearchSlice(nodes: seq<Block>, hs: seq<Handle>, key: int) returns (lo: nat)
    requires InArena(hs, |nodes|)
    ensures lo == SearchAbove(nodes, hs, key, 0, |hs|)
  {
    var hi;
    lo, hi := 0, |hs|;
    while lo < hi
      invariant 0 <= lo <= hi <= |hs|
      invariant SearchAbove(nodes, hs, key, lo, hi) == SearchAbove(nodes, hs, key, 0, |hs|)
      decreases hi - lo
    {
      var mid := (lo + hi) / 2;
      if !(nodes[hs[mid]].id.clock > key) {
        lo := mid + 1;
      } else {
        hi := mid;
      }
    }
  }

  class BlockStore {
    var nodes: seq<Block>
    var start: Option<Handle>
    ghost var order: seq<Handle>
    var length: nat
    var clock: nat
    var blocks: map<int, seq<Handle>>
    var stateVector: map<int, nat>
    const markerSystem: MarkerSystem
    var currentClient: int
    var pendingUpdates: seq<Update>
    var pendingDeletes: seq<DeleteUpdate>

    /** The fields as a `Store` value. */
    ghost function State(): Store
      reads this, markerSystem
    {
      Store(nodes, start, order, length, clock, blocks, stateVector, markerSystem.markers,
            currentClient, pendingUpdates, pendingDeletes)
    }

    ghost predicate Valid()
      reads this, markerSystem
    {
      StoreModel.Valid(State())
    }

    /** `NewStore`, with the client ID that Go draws at random passed in. */
    constructor (client: int)
      ensures State() == NewStore(client) && fresh(markerSystem)
    {
      nodes := [];
      start := None;
      order := [];
      length := 0;
      clock := 0;
      blocks := map[];
      stateVector := map[];
      markerSystem := new MarkerSystem();
      currentClient := client;
      pendingUpdates := [];
      pendingDeletes := [];
    }

    /** `getNextClock`: one clock tick per call. */
    method GetNextClock() returns (c: nat)
      modifies this
      ensures c == old(clock) + 1
      ensures State() == old(State()).(clock := c)
    {
      clock := clock + 1;
      c := clock;
    }

    /** `adjustLength`. */
    method AdjustLength(content: string)
      modifies this
      ensures State() == old(State()).(length := old(length) + |content|)
    {
      length := length + |content|;
    }

    /** `updateState`: the entry of the block's client never goes down. */
    method UpdateState(blk: Block)
      modifies this
      ensures State() == old(State()).(stateVector := AdvanceState(old(stateVector), blk.id))
    {
      var current := StateOf(stateVector, blk.id.client);
      if blk.id.clock > current {
        stateVector := stateVector[blk.id.client := blk.id.clock];
      }
    }

    /** `GetState`: a client the store has not seen reads as 0. */
    method GetState(client: int) returns (c: nat)
      ensures client !in stateVector ==> c == 0
      ensures client in stateVector ==> c == stateVector[client]
    {
      c := StateOf(stateVector, client);
    }

    method GetCurrentClient() returns (c: int)
      ensures c == currentClient
    {
      c := currentClient;
    }

    /**
     * `GetMissing`: the client of the first origin, left before right, that
     * is non-zero, of another client and beyond the store's state for that
     * client; none when neither origin is.
     */
    function GetMissing(blk: Block): (r: Option<int>)
      reads this
      ensures r.None? <==> !MissingOrigin(stateVector, blk, blk.leftOrigin) && !MissingOrigin(stateVector, blk, blk.rightOrigin)
      ensures MissingOrigin(stateVector, blk, blk.leftOrigin) ==> r == Some(blk.leftOrigin.client)
      ensures !MissingOrigin(stateVector, blk, blk.leftOrigin) && MissingOrigin(stateVector, blk, blk.rightOrigin) ==>
        r == Some(blk.rightOrigin.client)
    {
      if MissingOrigin(stateVector, blk, blk.leftOrigin) then Some(blk.leftOrigin.client)
      else if MissingOrigin(stateVector, blk, blk.rightOrigin) then Some(blk.rightOrigin.client)
      else None
    }

    /** `Content`: walk the list from `Start`, concatenating the live blocks' text. */
    method Content() returns (text: string)
      requires Valid()
      ensures text == Text(State())
    {
      text := Spell(nodes, order, start);
    }

    /**
     * `addBlock`: binary-search the client's slice for the first block with
     * a larger clock (`sort.Search`) and insert the handle there.
     */
    method AddBlock(h: Handle)
      requires Indexed(nodes, blocks) && h < |nodes|
      modifies this
      ensures State() == AddBlockSpec(old(State()), h)
    {
      var c := nodes[h].id.client;
      var bs := ClientBlocks(blocks, c);
      ClientBlocksIn(State(), c);
      var i := SearchSlice(nodes, bs, nodes[h].id.clock);
      blocks := blocks[c := InsertAt(bs, i, h)];
    }

    /** `HasBlock`: some block of the client's slice has exactly the ID's clock. */
    method HasBlock(id: ID) returns (found: bool)
      requires Indexed(nodes, blocks)
      ensures var hs := ClientBlocks(blocks, id.client);
        found <==> exists k :: 0 <= k < |hs| && hs[k] < |nodes| && nodes[hs[k]].id.clock == id.clock
    {
      if id.client !in blocks {
        return false;
      }
      var hs := blocks[id.client];
      ClientBlocksIn(State(), id.client);
      for k := 0 to |hs|
        invariant forall j :: 0 <= j < k ==> nodes[hs[j]].id.clock != id.clock
      {
        if nodes[hs[k]].id.clock == id.clock {
          return true;
        }
      }
      return false;
    }

    /** `GetBlockByID`: the first block of the client's slice with exactly the ID's clock, or nil. */
    method GetBlockByID(id: ID) returns (r: Option<Handle>)
      requires Indexed(nodes, blocks)
      ensures var hs := ClientBlocks(blocks, id.client);
        InArena(hs, |nodes|) &&
        r == (match FirstWithClock(nodes, hs, id.clock) case None => None case Some(k) => Some(hs[k]))
    {
      ClientBlocksIn(State(), id.client);
      if id.client !in blocks {
        return None;
      }
      var hs := blocks[id.client];
      for k := 0 to |hs|
        invariant forall j :: 0 <= j < k ==> nodes[hs[j]].id.clock != id.clock
      {
        if nodes[hs[k]].id.clock == id.clock {
          return Some(hs[k]);
        }
      }
      return None;
    }

    /**
     * `GetBlocksInRange`: the blocks of the client's slice whose clock lies
     * in `[uint64(startClock), uint64(startClock + length))`, in slice order.
     */
    method GetBlocksInRange(client: int, startClock: int, length: int) returns (result: seq<Handle>)
      requires Indexed(nodes, blocks)
      ensures var hs := ClientBlocks(blocks, client);
        InArena(hs, |nodes|) && result == InRange(nodes, hs, ToU64(startClock), ToU64(startClock + length))
    {
      ClientBlocksIn(State(), client);
      result := [];
      if client !in blocks {
        return;
      }
      var hs := blocks[client];
      var lo, hi := ToU64(startClock), ToU64(startClock + length);
      var k := |hs|;
      assert hs[..k] == hs;
      while k > 0
        invariant 0 <= k <= |hs|
        invariant InRange(nodes, hs, lo, hi) == InRange(nodes, hs[..k], lo, hi) + result
        decreases k
      {
        k := k - 1;
        InRangeSplit(nodes, hs[..k + 1], k, lo, hi);
        assert hs[..k + 1][..k] == hs[..k];
        if lo <= nodes[hs[k]].id.clock < hi {
          result := [hs[k]] + result;
        }
      }
    }

    /**
     * `SplitBlock(t, diff)`: cut block `t` after `diff` characters, link a
     * new block holding the rest right after it and add that block to its
     * client's slice.  A cut outside the block panics.
     */
    method SplitBlock(t: Handle, diff: int) returns (r: Result<Handle, Failure>)
      requires Valid() && t < |nodes|
      modifies this
      ensures (r, State()) == SplitSpec(old(State()), t, diff)
    {
      var b := nodes[t];
      if diff <= 0 || diff >= |b.content| {
        return Err(Panic(InvalidSplit(diff, |b.content|)));
      }
      ghost var s := State();
      SplitSteps(nodes, order, t, diff);
      SplitSpecOk(s, t, diff);
      var h := |nodes|;
      nodes := nodes[t := b.(content := b.content[..diff], right := Some(h))] + [TailOf(b, t, diff)];
      if b.right.Some? {
        var nx := b.right.value;
        nodes := nodes[nx := nodes[nx].(left := Some(h))];
      }
      order := SplitOrder(order, t, h);
      assert State() == SplitLinked(s, t, diff);
      AddBlock(h);
      r := Ok(h);
    }

    /**
     * `FindIndexInBlockArrayByID`: the index of the first block of `hs` with
     * the ID's clock or a text reaching past it; a panic when there is none.
     */
    method FindIndexInBlockArrayByID(hs: seq<Handle>, id: ID) returns (r: Result<nat, Failure>)
      requires InArena(hs, |nodes|)
      ensures r.Ok? ==> r.value < |hs| && Covers(nodes[hs[r.value]], id)
      ensures r.Ok? ==> forall j :: 0 <= j < r.value ==> !Covers(nodes[hs[j]], id)
      ensures r.Err? <==> forall j :: 0 <= j < |hs| ==> !Covers(nodes[hs[j]], id)
      ensures r.Err? ==> r.error == Panic(NoMatchingBlock)
      ensures r == match FirstCovering(nodes, hs, id) case Some(k) => Ok(k) case None => Err(Panic(NoMatchingBlock))
    {
      for i := 0 to |hs|
        invariant forall j :: 0 <= j < i ==> !Covers(nodes[hs[j]], id)
      {
        var blk := nodes[hs[i]];
        if blk.id.clock == id.clock || id.clock < blk.id.clock + |blk.content| {
          return Ok(i);
        }
      }
      return Err(Panic(NoMatchingBlock));
    }

    /** `findIndexCleanStart(hs, id)`. */
    method FindIndexCleanStart(hs: seq<Handle>, id: ID) returns (r: Result<nat, Failure>)
      requires Valid() && InArena(hs, |nodes|)
      modifies this
      ensures r == FindIndexCleanStartSpec(old(State()), hs, id).0
      ensures State() == FindIndexCleanStartSpec(old(State()), hs, id).1
    {
      var index := FindIndexInBlockArrayByID(hs, id);
      if index.Err? {
        return Err(index.error);
      }
      var t := hs[index.value];
      if nodes[t].id.clock <= id.clock {
        var split := SplitBlock(t, nodes[t].OffsetOf(id));
        if split.Err? {
          return Err(split.error);
        }
        return Ok(index.value + 1);
      }
      return Err(Panic(NoCleanStart));
    }

    /** `getItemCleanStart(id)`: split at `id`, then read the block at the reported index of the grown slice. */
    method GetItemCleanStart(id: ID) returns (r: Result<Handle, Failure>)
      requires Valid()
      modifies this
      ensures (r, State()) == GetItemCleanStartSpec(old(State()), id)
      ensures r.Ok? ==> |nodes| == old(|nodes|) + 1
    {
      ghost var s := State();
      ClientBlocksIn(s, id.client);
      var hs := ClientBlocks(blocks, id.client);
      var index := FindIndexCleanStart(hs, id);
      if index.Err? {
        return Err(index.error);
      }
      CleanStartGrows(s, id, hs, index.value, State());
      CleanStartSteps(s, id, hs, index.value, State());
      var grown := ClientBlocks(blocks, id.client);
      r := Ok(grown[index.value]);
    }

    /**
     * `findNextPosition(bp, count)`: with a positive count and a live block on
     * the right, cut that block `count` characters in when it is longer and
     * step over it.
     */
    method FindNextPosition(bp: ListPosition, count: int) returns (r: Result<ListPosition, Failure>)
      requires Valid() && PositionIn(bp, |nodes|) && bp.right.Some?
      modifies this
      ensures r == FindNextSpec(old(State()), bp, count).0
      ensures State() == FindNextSpec(old(State()), bp, count).1
    {
      if count <= 0 {
        return Ok(bp);
      }
      var rt := bp.right.value;
      var b := nodes[rt];
      if !b.isDeleted {
        ghost var s := State();
        if count < |b.content| {
          var clean := GetItemCleanStart(b.IdAt(count));
          if clean.Err? {
            return Err(clean.error);
          }
          FindNextCut(s, bp, count, (clean, State()));
        } else {
          FindNextWhole(s, bp, count);
        }
        return Ok(Past(rt, nodes[rt], bp.index));
      }
      return Ok(bp);
    }

    /** `findPositionForNewBlock(index)`: find a marker, then move on from its block by what is left of `index`. */
    method FindPositionForNewBlock(index: nat) returns (r: Result<ListPosition, Failure>)
      requires Valid()
      modifies this, markerSystem
      ensures r == FindPositionSpec(old(State()), index).0
      ensures State() == FindPositionSpec(old(State()), index).1
    {
      ghost var s := State();
      var found := markerSystem.FindMarker(index, nodes, order);
      if found.Err? {
        return Err(MarkerFailure(found.error));
      }
      MarkersStayIn(s, markerSystem.markers);
      var m := found.value;
      Neighbours(nodes, order, IndexOf(order, m.block));
      r := FindNextPosition(ListPosition(nodes[m.block].left, Some(m.block), m.pos), m.Beyond(index));
    }

    /**
     * The conflict-resolution half of `Integrate(blk)`: when the block's
     * pointers do not already fit, walk right from its left pointer (or
     * `Start`) up to its right pointer and pick its left neighbour by the
     * origin and client tie-breaks; otherwise keep its left pointer.
     */
    method IntegrationLeft(blk: Block) returns (left: Option<Handle>)
      requires Valid() && LinksIn(blk, |nodes|)
      ensures left == IntegrateLeft(State(), blk)
    {
      left := blk.left;
      if (blk.left.None? && (blk.right.None? || nodes[blk.right.value].left.None?))
        || (blk.left.Some? && nodes[blk.left.value].right != blk.right)
      {
        NextInArena(State(), blk.left);
        var o := if left.Some? then nodes[left.value].right else start;
        left := ScanLeft(nodes, order, blk, GapAfter(order, blk.left), o);
      }
    }

    /**
     * `Integrate(blk)`: choose the left neighbour, then link the block in
     * after it.
     */
    method Integrate(blk: Block)
      requires Valid() && LinksIn(blk, |nodes|)
      modifies this
      ensures State() == IntegrateSpec(old(State()), blk)
    {
      var left := IntegrationLeft(blk);
      Reconnect(blk, left);
    }

    /**
     * The reconnection half of `Integrate`: link the block in after `left`
     * (at the head without one), append it to its client's slice and advance
     * the state vector.
     */
    method Reconnect(blk: Block, left: Option<Handle>)
      requires Valid() && (left.Some? ==> left.value < |nodes|)
      modifies this
      ensures State() == IntegrateAt(old(State()), blk, left)
    {
      NextInArena(State(), left);
      var h := |nodes|;
      var right := if left.Some? then nodes[left.value].right else start;
      nodes := nodes + [blk.(left := left, right := right)];
      if left.Some? {
        nodes := nodes[left.value := nodes[left.value].(right := Some(h))];
      } else {
        start := Some(h);
      }
      if right.Some? {
        nodes := nodes[right.value := nodes[right.value].(left := Some(h))];
      }
      order := InsertAt(order, GapAfter(order, left), h);
      var c := blk.id.client;
      blocks := blocks[c := ClientBlocks(blocks, c) + [h]];
      UpdateState(blk);
    }

    /**
     * `Insert(pos, content)`: an empty store takes the text as its first
     * block; otherwise find the cursor for `pos` and integrate a new block
     * there.  Failures of the lookup are returned, a nil left neighbour
     * panics.
     */
    method Insert(pos: nat, content: string) returns (r: Result<(), Failure>)
      requires Valid()
      modifies this, markerSystem
      ensures r == InsertSpec(old(State()), pos, content).0
      ensures State() == InsertSpec(old(State()), pos, content).1
    {
      if start.None? {
        InsertFirstBlock(content);
        return Ok(());
      }
      var found := FindPositionForNewBlock(pos);
      if found.Err? {
        return Err(found.error);
      }
      var bp := found.value;
      if bp.left.None? {
        return Err(Panic(NilLeft));
      }
      InsertBlockAfter(bp, content);
      return Ok(());
    }

    /** `Insert` into an empty store: the text becomes `Start`, with a marker at 0, in its client's slice. */
    method InsertFirstBlock(content: string)
      requires Valid() && start.None?
      modifies this, markerSystem
      ensures State() == InsertFirst(old(State()), content)
    {
      EmptyStore(State());
      var c := GetNextClock();
      nodes := [NewBlock(ID(c, currentClient), content)];
      start := Some(0);
      order := [0];
      markerSystem.Add(0, 0);
      AddBlock(0);
      AdjustLength(content);
    }

    /**
     * `Insert` at the cursor `bp`: the next clock, the cursor's neighbours as
     * pointers and their IDs as origins; integrate, then add the length.
     */
    method InsertBlockAfter(bp: ListPosition, content: string)
      requires Valid() && PositionIn(bp, |nodes|) && bp.left.Some?
      modifies this
      ensures State() == InsertAfter(old(State()), bp, content)
    {
      ghost var s := State();
      var c := GetNextClock();
      ghost var s1 := State();
      var blk := Block(ID(c, currentClient), content, false, nodes[bp.left.value].id,
                       if bp.right.Some? then nodes[bp.right.value].id else ZeroID, bp.left, bp.right);
      assert blk == LocalBlock(s, bp, content);
      InsertAfterReady(s, bp, content, s1, blk);
      Integrate(blk);
      ghost var s2 := State();
      AdjustLength(content);
      InsertAfterSteps(s, bp, content, s1, blk, s2, State());
    }

    /**
     * `Delete(pos, length)`: refuse a length beyond `Length`; find the cursor
     * for `pos`; then tombstone blocks from there until `length` characters
     * are gone or the list ends.
     */
    method Delete(pos: nat, length: nat) returns (r: Result<(), Failure>)
      requires Valid() && length < U64
      modifies this, markerSystem
      ensures r == DeleteSpec(old(State()), pos, length).0
      ensures State() == DeleteSpec(old(State()), pos, length).1
    {
      if length > this.length {
        return Err(DeleteTooLong(length, this.length));
      }
      var found := FindPositionForNewBlock(pos);
      if found.Err? {
        return Err(found.error);
      }
      r := DeleteFrom(found.value, length);
    }

    /**
     * The loop of `Delete`: while characters are left and there is a block on
     * the right, cut that block at the remaining count when it is longer,
     * subtract its length from the uint64 counter, tombstone it and step over
     * it.
     */
    method DeleteFrom(bp: ListPosition, length: nat) returns (r: Result<(), Failure>)
      requires Valid() && length < U64 && (bp.right.Some? ==> bp.right.value < |nodes|)
      modifies this
      ensures r == DeleteLoop(old(State()), bp, length).0
      ensures State() == DeleteLoop(old(State()), bp, length).1
    {
      ghost var goal := DeleteLoop(State(), bp, length);
      var cursor := bp;
      var left: nat := length;
      while left > 0 && cursor.right.Some?
        invariant Valid() && left < U64 && (cursor.right.Some? ==> cursor.right.value < |nodes|)
        invariant DeleteLoop(State(), cursor, left) == goal
        decreases AheadOf(State(), cursor), StepsOf(State(), cursor)
      {
        ghost var s := State();
        var rt := cursor.right.value;
        var cut := CutRight(rt, left);
        LoopUnfolds(s, cursor, left);
        if cut.Err? {
          return Err(cut.error);
        }
        ghost var n := Step(s, cursor, left);
        RoundSteps(s, cursor, left);
        StepShrinks(s, cursor, left);
        left := Sub64(left, |nodes[rt].content|);
        nodes := nodes[rt := nodes[rt].MarkDeleted()];
        cursor := cursor.Forward(nodes);
        assert State() == n.store && cursor == n.cursor && left == n.left;
      }
      return Ok(());
    }

    /** The cut at the top of `Delete`'s loop: `getItemCleanStart` `left` characters into `rt` when `rt` is longer. */
    method CutRight(rt: Handle, left: nat) returns (r: Result<Handle, Failure>)
      requires Valid() && rt < |nodes|
      modifies this
      ensures r == CutAt(old(State()), rt, left).0
      ensures State() == CutAt(old(State()), rt, left).1
    {
      if left < |nodes[rt].content| {
        r := GetItemCleanStart(nodes[rt].IdAt(left));
      } else {
        r := Ok(rt);
      }
    }

    // --- the pending queues ---

    method AddPendingUpdate(update: Update)
      modifies this
      ensures State() == old(State()).(pendingUpdates := old(pendingUpdates) + [update])
    {
      pendingUpdates := pendingUpdates + [update];
    }

    method GetPendingUpdates() returns (r: seq<Update>)
      ensures r == pendingUpdates
    {
      r := pendingUpdates;
    }

    method SetPendingUpdates(updates: seq<Update>)
      modifies this
      ensures State() == old(State()).(pendingUpdates := updates)
    {
      pendingUpdates := updates;
    }

    method AddPendingDelete(del: DeleteUpdate)
      modifies this
      ensures State() == old(State()).(pendingDeletes := old(pendingDeletes) + [del])
    {
      pendingDeletes := pendingDeletes + [del];
    }

    method GetPendingDeletes() returns (r: seq<DeleteUpdate>)
      ensures r == pendingDeletes
    {
      r := pendingDeletes;
    }

    method SetPendingDeletes(deletes: seq<DeleteUpdate>)
      modifies this
      ensures State() == old(State()).(pendingDeletes := deletes)
    {
      pendingDeletes := deletes;
    }
  }

  /** `SplitBlock`'s pointer updates, one at a time, build `SplitNodes`. */
  lemma SplitSteps(nodes: seq<Block>, order: seq<Handle>, t: Handle, diff: int)
    requires IsList(nodes, order) && t < |nodes| && 0 < diff < |nodes[t].content|
    ensures var b := nodes[t];
      var h := |nodes|;
      var n1 := nodes[t := b.(content := b.content[..diff], right := Some(h))] + [TailOf(b, t, diff)];
      && (b.right.Some? ==> b.right.value < |nodes|)
      && SplitNodes(nodes, order, t, diff) == if b.right.Some? then n1[b.right.value := n1[b.right.value].(left := Some(h))] else n1
  {
    var k := IndexOf(order, t);
    Neighbours(nodes, order, k);
    if k + 1 < |order| {
      IndexOfDistinct(order, k);
      assert order[k + 1] != t;
    }
  }

  /** A split inside the block: link the tail in, then add it to its client's slice. */
  lemma SplitSpecOk(s: Store, t: Handle, diff: int)
    requires Valid(s) && t < |s.nodes| && 0 < diff < |s.nodes[t].content|
    ensures IsList(s.nodes, s.order) && Indexed(SplitLinked(s, t, diff).nodes, SplitLinked(s, t, diff).blocks)
    ensures SplitSpec(s, t, diff) == (Ok(|s.nodes|), AddBlockSpec(SplitLinked(s, t, diff), |s.nodes|))
  {
    SplitLinkedValid(s, t, diff);
  }

  /** Filtering a slice is filtering all but its last block, then the last block. */
  lemma InRangeSplit(nodes: seq<Block>, hs: seq<Handle>, k: nat, lo: int, hi: int)
    requires InArena(hs, |nodes|) && k + 1 == |hs|
    ensures InRange(nodes, hs, lo, hi) ==
      InRange(nodes, hs[..k], lo, hi) + (if lo <= nodes[hs[k]].id.clock < hi then [hs[k]] else [])
  {
    InRangeAppend(nodes, hs[..k], [hs[k]], lo, hi);
    assert hs[..k] + [hs[k]] == hs;
  }

  lemma {:induction false} InRangeAppend(nodes: seq<Block>, a: seq<Handle>, b: seq<Handle>, lo: int, hi: int)
    requires InArena(a, |nodes|) && InArena(b, |nodes|)
    ensures InArena(a + b, |nodes|)
    ensures InRange(nodes, a + b, lo, hi) == InRange(nodes, a, lo, hi) + InRange(nodes, b, lo, hi)
  {
    if a == [] {
      assert a + b == b;
    } else {
      InRangeAppend(nodes, a[1..], b, lo, hi);
      assert (a + b)[1..] == a[1..] + b;
    }
  }
}
