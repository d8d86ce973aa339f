/**
 * The store's local edits (internal/blockstore/store.go:88-155): `Insert`
 * of a string at a text position and `Delete` of a run of characters, as
 * functions on the value `Store`.
 */
module StoreEdit {
  import opened Wrappers
  import opened Blocks
  import opened Marker
  import opened StoreModel
  import opened StoreOps

  /** `a - b` on uint64: wraps around below zero. */
  const U64: nat := 0x1_0000_0000_0000_0000

  function Sub64(a: nat, b: nat): (r: nat)
    requires a < U64
    ensures r < U64
    ensures b <= a ==> r == a - b
    ensures a < b < U64 ==> r == a - b + U64
  {
    (a - b) % U64
  }

  // ---------------------------------------------------------------------
  // What finding a position leaves alone
  // ---------------------------------------------------------------------

  /** `s'` spells the same text as `s` and has the same counters, state vector, client and queues. */
  ghost predicate SameDocument(s: Store, s': Store)
    requires Valid(s) && Valid(s')
  {
    && Text(s') == Text(s) && |s.nodes| <= |s'.nodes|
    && s'.length == s.length && s'.clock == s.clock && s'.stateVector == s.stateVector
    && s'.currentClient == s.currentClient
    && s'.pendingUpdates == s.pendingUpdates && s'.pendingDeletes == s.pendingDeletes
  }

  /** A successful split changes the document only as `SameDocument` allows. */
  lemma SplitSameDocument(s: Store, t: Handle, diff: int, s': Store)
    requires Valid(s) && SplitsTo(s, t, diff, s')
    ensures Valid(s') && SameDocument(s, s')
  {
    SplitEffect(s, t, diff);
  }

  /** `findNextPosition` splits at most one block, which leaves the document as it was. */
  lemma NextKeeps(s: Store, bp: ListPosition, count: int)
    requires Valid(s) && PositionIn(bp, |s.nodes|) && bp.right.Some?
    ensures SameDocument(s, FindNextSpec(s, bp, count).1)
  {
    var r := FindNextSpec(s, bp, count).1;
    if r != s {
      var t, diff :| SplitsTo(s, t, diff, r);
      SplitSameDocument(s, t, diff, r);
    }
  }

  /**
   * `findPositionForNewBlock` changes at most the markers and one split of a
   * block: the text, counters and state vector stay as they were.
   */
  lemma PositionKeeps(s: Store, index: nat)
    requires Valid(s)
    ensures SameDocument(s, FindPositionSpec(s, index).1)
  {
    var r := FindPositionSpec(s, index).1;
    var s1 := s.(markers := r.markers);
    assert Valid(s1);
    if r != s1 {
      var t, diff :| SplitsTo(s1, t, diff, r);
      SplitSameDocument(s1, t, diff, r);
    }
  }

  // ---------------------------------------------------------------------
  // Insert
  // ---------------------------------------------------------------------

  /** A store without a first block is empty: no blocks, no markers, empty slices. */
  lemma EmptyStore(s: Store)
    requires Valid(s) && s.start.None?
    ensures s.order == [] && s.nodes == [] && s.markers == []
    ensures forall c :: ClientBlocks(s.blocks, c) == []
  {
    if |s.nodes| > 0 {
      ArenaListed(s.nodes, s.order);
      assert false;
    }
    if s.markers != [] {
      MarkerBelow(s.markers, |s.nodes|);
      assert false;
    }
    forall c | c in s.blocks
      ensures s.blocks[c] == []
    {
      if s.blocks[c] != [] {
        SliceBelow(s.nodes, s.blocks, c);
        assert false;
      }
    }
  }

  lemma ArenaListed(nodes: seq<Block>, order: seq<Handle>)
    requires IsList(nodes, order) && |nodes| > 0
    ensures |order| > 0
  {
    assert 0 in order;
  }

  lemma MarkerBelow(ms: seq<Marker>, n: nat)
    requires MarkersIn(ms, n) && ms != []
    ensures n > 0
  {
    assert ms[0].block < n;
  }

  lemma SliceBelow(nodes: seq<Block>, blocks: map<int, seq<Handle>>, c: int)
    requires Indexed(nodes, blocks) && c in blocks && blocks[c] != []
    ensures |nodes| > 0
  {
    assert blocks[c][0] < |nodes|;
  }

  /**
   * The first `Insert` into an empty store: the block with the next clock
   * becomes `Start`, gets a marker at 0, joins its client's slice and adds
   * its length.  The state vector is not updated on this path.
   */
  ghost function InsertFirst(s: Store, content: string): (r: Store)
    requires Valid(s) && s.start.None?
    ensures Valid(r)
  {
    EmptyStore(s);
    var blk := NewBlock(ID(s.clock + 1, s.currentClient), content);
    var s1 := s.(nodes := [blk], start := Some(0), order := [0], clock := s.clock + 1,
                 markers := s.markers + [Marker(0, 0)]);
    AddBlockSpec(s1, 0).(length := s.length + |content|)
  }

  /**
   * The block `Insert` writes after finding the cursor `bp`: the next clock
   * of the local client, linked between the cursor's neighbours, with their
   * IDs as origins (the zero ID when there is no right neighbour).
   */
  ghost function LocalBlock(s: Store, bp: ListPosition, content: string): (b: Block)
    requires PositionIn(bp, |s.nodes|) && bp.left.Some?
    ensures LinksIn(b, |s.nodes|)
  {
    Block(ID(s.clock + 1, s.currentClient), content, false, s.nodes[bp.left.value].id,
          if bp.right.Some? then s.nodes[bp.right.value].id else ZeroID, bp.left, bp.right)
  }

  /**
   * The integration step of `Insert` at the cursor `bp`: take the next clock,
   * integrate the new block and add its length (Integrate reads neither
   * the clock nor the length, so both are applied to its result).
   */
  ghost function InsertAfter(s: Store, bp: ListPosition, content: string): (r: Store)
    requires Valid(s) && PositionIn(bp, |s.nodes|) && bp.left.Some?
    ensures Valid(r)
  {
    var blk := LocalBlock(s, bp, content);
    IntegrateValid(s, blk, IntegrateLeft(s, blk));
    IntegrateSpec(s, blk).(clock := s.clock + 1, length := s.length + |content|)
  }

  /**
   * `Insert(pos, content)`.  An empty store takes the text as its first
   * block.  Otherwise the position is looked up (its failures are returned
   * with the store as the lookup left it), a nil left neighbour panics, and
   * the new block is integrated and its length added.
   */
  ghost function InsertSpec(s: Store, pos: nat, content: string): (r: (Result<(), Failure>, Store))
    requires Valid(s)
    ensures Valid(r.1)
  {
    if s.start.None? then (Ok(()), InsertFirst(s, content))
    else
      var found := FindPositionSpec(s, pos);
      if found.0.Err? then (Err(found.0.error), found.1)
      else
        var bp := found.0.value;
        if bp.left.None? then (Err(Panic(NilLeft)), found.1)
        else
          (Ok(()), InsertAfter(found.1, bp, content))
  }

  /**
   * Each successful `Insert` raises the clock by exactly one and the length
   * by the length of the text; a failed one changes neither, nor the text.
   */
  lemma InsertCounters(s: Store, pos: nat, content: string)
    requires Valid(s)
    ensures var r := InsertSpec(s, pos, content);
      && r.1.currentClient == s.currentClient
      && (r.0.Ok? ==> r.1.clock == s.clock + 1 && r.1.length == s.length + |content|)
      && (r.0.Err? ==> r.1.clock == s.clock && r.1.length == s.length && Text(r.1) == Text(s))
  {
    if s.start.Some? {
      PositionKeeps(s, pos);
      var found := FindPositionSpec(s, pos);
      if found.0.Ok? && found.0.value.left.Some? {
        InsertAfterCounters(found.1, found.0.value, content);
      }
    }
  }

  /**
   * `Insert` into an empty store makes the text its only block: `Start`,
   * with the next clock of the local client and zero origins, the text of
   * the document, the one marker at 0 and the client's only block.  The
   * state vector is left as it was.
   */
  lemma InsertIntoEmpty(s: Store, pos: nat, content: string)
    requires Valid(s) && s.start.None?
    ensures var r := InsertSpec(s, pos, content);
      && r.0 == Ok(())
      && r.1.order == [0] && r.1.start == Some(0)
      && r.1.nodes == [NewBlock(ID(s.clock + 1, s.currentClient), content)]
      && Text(r.1) == content
      && r.1.markers == [Marker(0, 0)]
      && ClientBlocks(r.1.blocks, s.currentClient) == [0]
      && r.1.stateVector == s.stateVector
  {
    EmptyStore(s);
    var r := InsertSpec(s, pos, content);
    assert ContentOf(r.1.nodes, r.1.order[..0]) == [];
    ClientBlocksIn(s, s.currentClient);
  }

  /**
   * The new block sits at `i > 0` of the list with the ID of its left
   * neighbour as left origin and the ID of its right neighbour (zero at the
   * end of the list) as right origin.
   */
  ghost predicate PlacedByOrigins(nodes: seq<Block>, order: seq<Handle>, h: Handle)
    requires InArena(order, |nodes|) && h < |nodes| && h in order
  {
    var i := IndexOf(order, h);
    && 1 <= i
    && nodes[h].leftOrigin == nodes[order[i - 1]].id
    && nodes[h].rightOrigin == (if i + 1 < |order| then nodes[order[i + 1]].id else ZeroID)
  }

  /** The last arena slot of `r` holds a live block with `id` and `content`, placed by its origins. */
  ghost predicate BlockAdded(r: Store, id: ID, content: string)
    requires Valid(r)
  {
    var h := |r.nodes| - 1;
    && 0 <= h
    && r.nodes[h].id == id && r.nodes[h].content == content
    && !r.nodes[h].isDeleted
    && PlacedByOrigins(r.nodes, r.order, h)
  }

  /** `t'` is `t` with `content` at one offset. */
  ghost predicate Spliced(t: string, t': string, content: string)
  {
    exists q :: 0 <= q <= |t| && t' == t[..q] + content + t[q..]
  }

  /**
   * `r` is `s` with one block more: the next clock of the local client with
   * the text `content`, placed so that its origins are its neighbours, the
   * text of `s` with `content` at one offset, and the state vector recording
   * the new clock.
   */
  ghost predicate InsertedInto(s: Store, r: Store, content: string)
    requires Valid(s) && Valid(r)
  {
    && |s.nodes| < |r.nodes|
    && BlockAdded(r, ID(s.clock + 1, s.currentClient), content)
    && Spliced(Text(s), Text(r), content)
    && StateOf(r.stateVector, s.currentClient) == Max(StateOf(s.stateVector, s.currentClient), s.clock + 1)
  }

  /**
   * A successful `Insert` into a non-empty store adds one block: the next
   * clock of the local client with the inserted text, placed right after
   * the cursor's left block without a conflict scan, so its origins are its
   * neighbours; the text gains the inserted string at one offset, and the
   * state vector records the new clock.
   */
  lemma InsertPlaces(s: Store, pos: nat, content: string)
    requires Valid(s) && s.start.Some?
    ensures var r := InsertSpec(s, pos, content);
      r.0.Ok? ==> InsertedInto(s, r.1, content)
  {
    PositionKeeps(s, pos);
    var found := FindPositionSpec(s, pos);
    if found.0.Ok? && found.0.value.left.Some? {
      InsertStep(s, found.1, found.0.value, content);
    }
  }

  /** `InsertAfter` takes one clock tick, adds the text's length and keeps the client. */
  lemma InsertAfterCounters(s: Store, bp: ListPosition, content: string)
    requires Valid(s) && PositionIn(bp, |s.nodes|) && bp.left.Some?
    ensures var r := InsertAfter(s, bp, content);
      r.clock == s.clock + 1 && r.length == s.length + |content| && r.currentClient == s.currentClient
  {
    var blk := LocalBlock(s, bp, content);
    IntegrateValid(s, blk, IntegrateLeft(s, blk));
  }

  /** `InsertPlaces` once the cursor `bp` is found in `s1`, which spells the same document as `s`. */
  lemma InsertStep(s: Store, s1: Store, bp: ListPosition, content: string)
    requires Valid(s) && Valid(s1) && SameDocument(s, s1) && Adjacent(s1, bp) && bp.left.Some?
    ensures InsertedInto(s, InsertAfter(s1, bp, content), content)
  {
    InsertStepBlock(s1, bp, content);
    InsertStepText(s1, bp, content);
    InsertStepState(s1, bp, content);
    InsertedIntoSame(s, s1, InsertAfter(s1, bp, content), content);
  }

  /** `InsertedInto` only looks at what `SameDocument` keeps. */
  lemma InsertedIntoSame(s: Store, s1: Store, r: Store, content: string)
    requires Valid(s) && Valid(s1) && Valid(r) && SameDocument(s, s1) && |s1.nodes| < |r.nodes|
    requires BlockAdded(r, ID(s1.clock + 1, s1.currentClient), content)
    requires Spliced(Text(s1), Text(r), content)
    requires StateOf(r.stateVector, s1.currentClient) == Max(StateOf(s1.stateVector, s1.currentClient), s1.clock + 1)
    ensures InsertedInto(s, r, content)
  {
  }

  /** `InsertAfter` is the integrated store with new counters: same arena and list. */
  lemma InsertAfterShape(s: Store, bp: ListPosition, content: string)
    requires Valid(s) && PositionIn(bp, |s.nodes|) && bp.left.Some?
    ensures var r := InsertAfter(s, bp, content);
      var r1 := IntegrateSpec(s, LocalBlock(s, bp, content));
      r.nodes == r1.nodes && r.order == r1.order && r.stateVector == r1.stateVector
  {
    var blk := LocalBlock(s, bp, content);
    IntegrateValid(s, blk, IntegrateLeft(s, blk));
  }

  lemma InsertStepBlock(s: Store, bp: ListPosition, content: string)
    requires Valid(s) && Adjacent(s, bp) && bp.left.Some?
    ensures var r := InsertAfter(s, bp, content);
      |r.nodes| == |s.nodes| + 1 && BlockAdded(r, ID(s.clock + 1, s.currentClient), content)
  {
    var blk := LocalBlock(s, bp, content);
    LocalLands(s, bp, content);
    InsertAfterShape(s, bp, content);
    SameListAdded(IntegrateSpec(s, blk), InsertAfter(s, bp, content), blk.id, content);
  }

  lemma LocalLands(s: Store, bp: ListPosition, content: string)
    requires Valid(s) && Adjacent(s, bp) && bp.left.Some?
    ensures var blk := LocalBlock(s, bp, content);
      LinksIn(blk, |s.nodes|) && IntegrateLeft(s, blk) == bp.left
    ensures var r := IntegrateSpec(s, LocalBlock(s, bp, content));
      Valid(r) && |r.nodes| == |s.nodes| + 1 && BlockAdded(r, ID(s.clock + 1, s.currentClient), content)
  {
    var blk := LocalBlock(s, bp, content);
    InsertLands(s, bp, blk);
    AddedAt(IntegrateSpec(s, blk), |s.nodes|, blk);
  }

  /** A block placed by its origins in the last slot, links aside, is added. */
  lemma AddedAt(r: Store, n: nat, blk: Block)
    requires Valid(r) && |r.nodes| == n + 1 && !blk.isDeleted
    requires r.nodes[n] == blk.(left := r.nodes[n].left, right := r.nodes[n].right)
    requires n in r.order && PlacedByOrigins(r.nodes, r.order, n)
    ensures BlockAdded(r, blk.id, blk.content)
  {
  }

  /** `BlockAdded` only looks at the arena and the list. */
  lemma SameListAdded(r1: Store, r: Store, id: ID, content: string)
    requires Valid(r1) && Valid(r) && r.nodes == r1.nodes && r.order == r1.order
    requires BlockAdded(r1, id, content)
    ensures BlockAdded(r, id, content)
  {
  }

  lemma InsertStepText(s: Store, bp: ListPosition, content: string)
    requires Valid(s) && Adjacent(s, bp) && bp.left.Some?
    ensures var r := InsertAfter(s, bp, content);
      Spliced(Text(s), Text(r), content)
  {
    var blk := LocalBlock(s, bp, content);
    IntegrateAdjacent(s, blk);
    IntegrateText(s, blk, bp.left);
    var q := TextBefore(s.nodes, s.order, GapAfter(s.order, bp.left));
    InsertAfterShape(s, bp, content);
    assert Text(InsertAfter(s, bp, content)) == Text(s)[..q] + content + Text(s)[q..];
  }

  lemma InsertStepState(s: Store, bp: ListPosition, content: string)
    requires Valid(s) && PositionIn(bp, |s.nodes|) && bp.left.Some?
    ensures var r := InsertAfter(s, bp, content);
      StateOf(r.stateVector, s.currentClient) == Max(StateOf(s.stateVector, s.currentClient), s.clock + 1)
  {
    var blk := LocalBlock(s, bp, content);
    IntegrateValid(s, blk, IntegrateLeft(s, blk));
  }

  /** The new block of `Insert` lands right after the cursor's left block, with its neighbours as origins. */
  lemma InsertLands(s: Store, bp: ListPosition, blk: Block)
    requires Valid(s) && Adjacent(s, bp) && bp.left.Some?
    requires blk.left == bp.left && blk.right == bp.right && !blk.isDeleted
    requires blk.leftOrigin == s.nodes[bp.left.value].id
    requires blk.rightOrigin == if bp.right.Some? then s.nodes[bp.right.value].id else ZeroID
    ensures LinksIn(blk, |s.nodes|) && IntegrateLeft(s, blk) == bp.left
    ensures var r := IntegrateSpec(s, blk);
      && Valid(r) && |r.nodes| == |s.nodes| + 1
      && r.nodes[|s.nodes|] == blk.(left := r.nodes[|s.nodes|].left, right := r.nodes[|s.nodes|].right)
      && |s.nodes| in r.order && PlacedByOrigins(r.nodes, r.order, |s.nodes|)
  {
    var L := bp.left.value;
    var i := IndexOf(s.order, L) + 1;
    IntegrateAdjacent(s, blk);
    IntegrateValid(s, blk, bp.left);
    var r := IntegrateSpec(s, blk);
    Neighbours(s.nodes, s.order, i - 1);
    IndexOfDistinct(r.order, i);
    assert r.order[i - 1] == L;
    if i < |s.order| {
      assert r.order[i + 1] == s.order[i];
    }
  }
}
