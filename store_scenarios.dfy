/**
 * Edit sequences of internal/blockstore/store_test.go worked through the
 * model, from a fresh store of any client `c`: each step is the literal store the
 * operation leaves, and the last one spells the text the test expects.
 * The last sequence shows what the stale markers of `Insert` do.
 */
module StoreScenarios {
  import opened Wrappers
  import opened Blocks
  import opened Marker
  import opened StoreModel
  import opened StoreOps
  import opened StoreEdit
  import opened StoreDelete

  // ---------------------------------------------------------------------
  // One block, and one block split in two
  // ---------------------------------------------------------------------

  /** After `Insert(0, content)` into a fresh store. */
  function Single(c: int, content: string): Store
  {
    Store([Block(ID(1, c), content, false, ZeroID, ZeroID, None, None)], Some(0), [0], |content|, 1,
          map[c := [0]], map[], [Marker(0, 0)], c, [], [])
  }

  /** `Single(c, head + tail)` after the lookup of the position between `head` and `tail`: split there. */
  function Halves(c: int, head: string, tail: string): Store
  {
    Store([Block(ID(1, c), head, false, ZeroID, ZeroID, None, Some(1)),
           Block(ID(1 + |head|, c), tail, false, ID(|head|, c), ZeroID, Some(0), None)],
          Some(0), [0, 1], |head| + |tail|, 1, map[c := [0, 1]], map[], [Marker(0, 0), Marker(0, 0)], c, [], [])
  }

  lemma FirstInsert(c: int, content: string)
    ensures InsertSpec(NewStore(c), 0, content) == (Ok(()), Single(c, content))
  {
    var s := NewStore(c);
    InsertIntoEmpty(s, 0, content);
    InsertCounters(s, 0, content);
    var r := InsertSpec(s, 0, content).1;
    assert r.blocks == map[c := [0]];
  }

  lemma ValidSingle(c: int, content: string)
    ensures Valid(Single(c, content)) && Valid(Single(c, content).(markers := [Marker(0, 0), Marker(0, 0)]))
  {
  }

  /** A lookup past the start of a one-block store walks nowhere and appends the head marker again. */
  lemma MarkerFirst(c: int, content: string, pos: int)
    requires 0 < pos
    ensures FindMarkerSpec([Marker(0, 0)], Single(c, content).nodes, [0], pos) == (Ok(Marker(0, 0)), [Marker(0, 0), Marker(0, 0)])
  {
    var nodes := Single(c, content).nodes;
    assert FirstAt([Marker(0, 0)], pos) == None;
    assert IndexOf([0], 0) == 0;
    assert WalkRight(nodes, [0], 0, 0, pos) == (0, 0);
    assert WalkLeft(nodes, [0], 0, 0, pos) == (0, 0);
    assert [Marker(0, 0)] + [Marker(0, 0)] == [Marker(0, 0), Marker(0, 0)];
  }

  lemma SplitSingle(c: int, head: string, tail: string)
    requires head != [] && tail != []
    ensures Valid(Single(c, head + tail).(markers := [Marker(0, 0), Marker(0, 0)]))
    ensures SplitSpec(Single(c, head + tail).(markers := [Marker(0, 0), Marker(0, 0)]), 0, |head|) == (Ok(1), Halves(c, head, tail))
  {
    var k := |head|;
    ValidSingle(c, head + tail);
    var s := Single(c, head + tail).(markers := [Marker(0, 0), Marker(0, 0)]);
    assert (head + tail)[..k] == head && (head + tail)[k..] == tail;
    assert IndexOf([0], 0) == 0;
    assert HeadCut(s.nodes, 0, k) == [Block(ID(1, c), head, false, ZeroID, ZeroID, None, None)];
    assert SplitNodes(s.nodes, s.order, 0, k) == Halves(c, head, tail).nodes;
    var l := SplitLinked(s, 0, k);
    assert l.order == [0, 1];
    assert SearchAbove(l.nodes, [0], 1 + k, 0, 1) == 1;
    assert AddBlockSpec(l, 1).blocks == map[c := [0, 1]];
  }

  lemma CleanSingle(c: int, head: string, tail: string)
    requires head != [] && tail != []
    ensures Valid(Single(c, head + tail).(markers := [Marker(0, 0), Marker(0, 0)]))
    ensures GetItemCleanStartSpec(Single(c, head + tail).(markers := [Marker(0, 0), Marker(0, 0)]), ID(1 + |head|, c)) == (Ok(1), Halves(c, head, tail))
  {
    SplitSingle(c, head, tail);
    var s := Single(c, head + tail).(markers := [Marker(0, 0), Marker(0, 0)]);
    var id := ID(1 + |head|, c);
    assert ClientBlocks(s.blocks, c) == [0];
    assert FirstCovering(s.nodes, [0], id) == Some(0);
    assert FindIndexCleanStartSpec(s, [0], id) == (Ok(1), Halves(c, head, tail));
    assert ClientBlocks(Halves(c, head, tail).blocks, c) == [0, 1];
  }

  /** The lookup of a position inside the only block splits it there; the cursor sits between the halves. */
  lemma FindSingle(c: int, head: string, tail: string)
    requires head != [] && tail != []
    ensures Valid(Single(c, head + tail))
    ensures FindPositionSpec(Single(c, head + tail), |head|) == (Ok(ListPosition(Some(0), Some(1), |head|)), Halves(c, head, tail))
  {
    var k := |head|;
    ValidSingle(c, head + tail);
    MarkerFirst(c, head + tail, k);
    CleanSingle(c, head, tail);
    var s := Single(c, head + tail).(markers := [Marker(0, 0), Marker(0, 0)]);
    assert Single(c, head + tail).nodes[0].IdAt(k) == ID(1 + k, c);
    assert FindNextSpec(s, ListPosition(None, Some(0), 0), k) == (Ok(ListPosition(Some(0), Some(1), k)), Halves(c, head, tail));
  }

  /** The text of two listed blocks. */
  lemma Spells2(nodes: seq<Block>, a: Handle, b: Handle)
    requires a < |nodes| && b < |nodes|
    ensures InArena([a, b], |nodes|)
    ensures ContentOf(nodes, [a, b]) == nodes[a].Visible() + nodes[b].Visible()
  {
    assert [a, b][..1] == [a] && [a][..0] == [];
    assert ContentOf(nodes, [a]) == nodes[a].Visible();
  }

  /** The text of three listed blocks. */
  lemma Spells3(nodes: seq<Block>, a: Handle, b: Handle, c: Handle)
    requires a < |nodes| && b < |nodes| && c < |nodes|
    ensures InArena([a, b, c], |nodes|)
    ensures ContentOf(nodes, [a, b, c]) == nodes[a].Visible() + nodes[b].Visible() + nodes[c].Visible()
  {
    assert [a, b, c][..2] == [a, b];
    Spells2(nodes, a, b);
  }

  lemma Spells4(nodes: seq<Block>, a: Handle, b: Handle, c: Handle, d: Handle)
    requires a < |nodes| && b < |nodes| && c < |nodes| && d < |nodes|
    ensures InArena([a, b, c, d], |nodes|)
    ensures ContentOf(nodes, [a, b, c, d]) == nodes[a].Visible() + nodes[b].Visible() + nodes[c].Visible() + nodes[d].Visible()
  {
    assert [a, b, c, d][..3] == [a, b, c];
    Spells3(nodes, a, b, c);
  }

  lemma Spells5(nodes: seq<Block>, a: Handle, b: Handle, c: Handle, d: Handle, e: Handle)
    requires a < |nodes| && b < |nodes| && c < |nodes| && d < |nodes| && e < |nodes|
    ensures InArena([a, b, c, d, e], |nodes|)
    ensures ContentOf(nodes, [a, b, c, d, e])
      == nodes[a].Visible() + nodes[b].Visible() + nodes[c].Visible() + nodes[d].Visible() + nodes[e].Visible()
  {
    assert [a, b, c, d, e][..4] == [a, b, c, d];
    Spells4(nodes, a, b, c, d);
  }

  // ---------------------------------------------------------------------
  // "A", then "B" at 1, then "X" at 1
  // ---------------------------------------------------------------------

  /** After `Insert(1, "B")`. */
  function StoreAB(c: int): Store
  {
    Store([Block(ID(1, c), "A", false, ZeroID, ZeroID, None, Some(1)),
           Block(ID(2, c), "B", false, ID(1, c), ZeroID, Some(0), None)],
          Some(0), [0, 1], 2, 2, map[c := [0, 1]], map[c := 2], [Marker(0, 0), Marker(0, 0)], c, [], [])
  }

  /** After `Insert(1, "X")`. */
  function StoreAXB(c: int): Store
  {
    Store([Block(ID(1, c), "A", false, ZeroID, ZeroID, None, Some(2)),
           Block(ID(2, c), "B", false, ID(1, c), ZeroID, Some(2), None),
           Block(ID(3, c), "X", false, ID(1, c), ID(2, c), Some(0), Some(1))],
          Some(0), [0, 2, 1], 3, 3, map[c := [0, 1, 2]], map[c := 3], [Marker(0, 0), Marker(0, 0), Marker(1, 1)], c, [], [])
  }

  /** Appending at the end of "A": the cursor steps over the block. */
  lemma FindB(c: int)
    ensures Valid(Single(c, "A"))
    ensures FindPositionSpec(Single(c, "A"), 1) == (Ok(ListPosition(Some(0), None, 1)), Single(c, "A").(markers := [Marker(0, 0), Marker(0, 0)]))
  {
    ValidSingle(c, "A");
    MarkerFirst(c, "A", 1);
    var s1 := Single(c, "A").(markers := [Marker(0, 0), Marker(0, 0)]);
    assert FindNextSpec(s1, ListPosition(None, Some(0), 0), 1) == (Ok(ListPosition(Some(0), None, 1)), s1);
  }

  lemma PlaceB(c: int)
    ensures Valid(Single(c, "A").(markers := [Marker(0, 0), Marker(0, 0)]))
    ensures InsertAfter(Single(c, "A").(markers := [Marker(0, 0), Marker(0, 0)]), ListPosition(Some(0), None, 1), "B") == StoreAB(c)
  {
    ValidSingle(c, "A");
    var s1 := Single(c, "A").(markers := [Marker(0, 0), Marker(0, 0)]);
    var blk := LocalBlock(s1, ListPosition(Some(0), None, 1), "B");
    assert blk == Block(ID(2, c), "B", false, ID(1, c), ZeroID, Some(0), None);
    assert !NeedsScan(s1.nodes, blk);
    assert IndexOf([0], 0) == 0;
    var r := IntegrateAt(s1, blk, Some(0));
    assert r.order == [0, 1];
    assert ClientBlocks(s1.blocks, c) + [1] == [0, 1];
    assert r.blocks == map[c := [0, 1]];
    assert r.stateVector == map[c := 2];
  }

  lemma ThenB(c: int)
    ensures Valid(Single(c, "A"))
    ensures InsertSpec(Single(c, "A"), 1, "B") == (Ok(()), StoreAB(c))
  {
    FindB(c);
    PlaceB(c);
  }

  lemma ValidAB(c: int)
    ensures Valid(StoreAB(c))
  {
  }

  /** The walk from the head marker passes "A" and stops on the last block, "B", at 1. */
  lemma MarkerAtB(c: int, pos: int)
    requires 1 <= pos
    ensures FindMarkerSpec([Marker(0, 0), Marker(0, 0)], StoreAB(c).nodes, [0, 1], pos) == (Ok(Marker(1, 1)), [Marker(0, 0), Marker(0, 0), Marker(1, 1)])
  {
    var s := StoreAB(c);
    assert FirstAt([Marker(0, 0), Marker(0, 0)], pos) == None;
    assert IndexOf([0, 1], 0) == 0;
    assert WalkRight(s.nodes, [0, 1], 1, 1, pos) == (1, 1);
    assert WalkRight(s.nodes, [0, 1], 0, 0, pos) == (1, 1);
    assert WalkLeft(s.nodes, [0, 1], 1, 1, pos) == (1, 1);
    assert [Marker(0, 0), Marker(0, 0)] + [Marker(1, 1)] == [Marker(0, 0), Marker(0, 0), Marker(1, 1)];
  }

  lemma FindX(c: int)
    ensures Valid(StoreAB(c))
    ensures FindPositionSpec(StoreAB(c), 1) == (Ok(ListPosition(Some(0), Some(1), 1)), StoreAB(c).(markers := [Marker(0, 0), Marker(0, 0), Marker(1, 1)]))
  {
    ValidAB(c);
    MarkerAtB(c, 1);
    var s1 := StoreAB(c).(markers := [Marker(0, 0), Marker(0, 0), Marker(1, 1)]);
    assert Valid(s1);
    assert FindNextSpec(s1, ListPosition(Some(0), Some(1), 1), 0) == (Ok(ListPosition(Some(0), Some(1), 1)), s1);
  }

  lemma PlaceX(c: int)
    ensures Valid(StoreAB(c).(markers := [Marker(0, 0), Marker(0, 0), Marker(1, 1)]))
    ensures InsertAfter(StoreAB(c).(markers := [Marker(0, 0), Marker(0, 0), Marker(1, 1)]), ListPosition(Some(0), Some(1), 1), "X") == StoreAXB(c)
  {
    ValidAB(c);
    var s1 := StoreAB(c).(markers := [Marker(0, 0), Marker(0, 0), Marker(1, 1)]);
    assert Valid(s1);
    var blk := LocalBlock(s1, ListPosition(Some(0), Some(1), 1), "X");
    assert blk == Block(ID(3, c), "X", false, ID(1, c), ID(2, c), Some(0), Some(1));
    assert !NeedsScan(s1.nodes, blk);
    assert IndexOf([0, 1], 0) == 0;
    var r := IntegrateAt(s1, blk, Some(0));
    assert r.order == [0, 2, 1];
    assert ClientBlocks(s1.blocks, c) + [2] == [0, 1, 2];
    assert r.blocks == map[c := [0, 1, 2]];
    assert r.stateVector == map[c := 3];
  }

  lemma ThenX(c: int)
    ensures Valid(StoreAB(c))
    ensures InsertSpec(StoreAB(c), 1, "X") == (Ok(()), StoreAXB(c))
  {
    FindX(c);
    PlaceX(c);
  }

  lemma TextAXB(c: int)
    ensures InArena(StoreAXB(c).order, 3) && Text(StoreAXB(c)) == "AXB"
  {
    var s := StoreAXB(c);
    Spells3(s.nodes, 0, 2, 1);
  }

  /**
   * Inserting "A", then "B" at 1, then "X" at 1 spells "AXB": the last text
   * goes in between the two earlier ones.
   */
  lemma InsertBetween(c: int)
    ensures var s1 := InsertSpec(NewStore(c), 0, "A");
      var s2 := InsertSpec(s1.1, 1, "B");
      var s3 := InsertSpec(s2.1, 1, "X");
      s1.0.Ok? && s2.0.Ok? && s3.0.Ok? && Text(s3.1) == "AXB"
  {
    FirstInsert(c, "A");
    ThenB(c);
    ThenX(c);
    TextAXB(c);
  }

  // ---------------------------------------------------------------------
  // "World", then "X" at 2
  // ---------------------------------------------------------------------

  /** "World" split after "Wo". */
  function StoreWoRld(c: int): Store
  {
    Store([Block(ID(1, c), "Wo", false, ZeroID, ZeroID, None, Some(1)),
           Block(ID(3, c), "rld", false, ID(2, c), ZeroID, Some(0), None)],
          Some(0), [0, 1], 5, 1, map[c := [0, 1]], map[], [Marker(0, 0), Marker(0, 0)], c, [], [])
  }

  lemma HalvesWorld(c: int)
    ensures Valid(StoreWoRld(c)) && Halves(c, "Wo", "rld") == StoreWoRld(c)
  {
    CleanSingle(c, "Wo", "rld");
  }

  /** After `Insert(2, "X")` into "World": the new block has clock 2, between "Wo" and "rld". */
  function StoreWoXrld(c: int): Store
  {
    Store([Block(ID(1, c), "Wo", false, ZeroID, ZeroID, None, Some(2)),
           Block(ID(3, c), "rld", false, ID(2, c), ZeroID, Some(2), None),
           Block(ID(2, c), "X", false, ID(1, c), ID(3, c), Some(0), Some(1))],
          Some(0), [0, 2, 1], 6, 2, map[c := [0, 1, 2]], map[c := 2], [Marker(0, 0), Marker(0, 0)], c, [], [])
  }

  lemma PlaceWorld(c: int)
    ensures Valid(StoreWoRld(c))
    ensures InsertAfter(StoreWoRld(c), ListPosition(Some(0), Some(1), 2), "X") == StoreWoXrld(c)
  {
    HalvesWorld(c);
    var s1 := StoreWoRld(c);
    var blk := LocalBlock(s1, ListPosition(Some(0), Some(1), 2), "X");
    assert blk == Block(ID(2, c), "X", false, ID(1, c), ID(3, c), Some(0), Some(1));
    assert !NeedsScan(s1.nodes, blk);
    assert IndexOf([0, 1], 0) == 0;
    var r := IntegrateAt(s1, blk, Some(0));
    assert r.order == [0, 2, 1];
    assert ClientBlocks(s1.blocks, c) + [2] == [0, 1, 2];
    assert r.blocks == map[c := [0, 1, 2]];
    assert r.stateVector == map[c := 2];
  }

  lemma TextWoXrld(c: int)
    ensures InArena(StoreWoXrld(c).order, 3) && Text(StoreWoXrld(c)) == "WoXrld"
  {
    var s := StoreWoXrld(c);
    Spells3(s.nodes, 0, 2, 1);
  }

  /** Inserting "X" at 2 of "World" splits the block after "Wo" and spells "WoXrld". */
  lemma InsertSplits(c: int)
    ensures var s1 := InsertSpec(NewStore(c), 0, "World");
      var s2 := InsertSpec(s1.1, 2, "X");
      s1.0.Ok? && s2.0.Ok? && Text(s2.1) == "WoXrld"
  {
    FirstInsert(c, "World");
    assert "Wo" + "rld" == "World";
    FindSingle(c, "Wo", "rld");
    HalvesWorld(c);
    PlaceWorld(c);
    TextWoXrld(c);
  }

  // ---------------------------------------------------------------------
  // "Hello", then Delete(1, 3)
  // ---------------------------------------------------------------------

  /** "Hello" split after "H". */
  function StoreHEllo(c: int): Store
  {
    Store([Block(ID(1, c), "H", false, ZeroID, ZeroID, None, Some(1)),
           Block(ID(2, c), "ello", false, ID(1, c), ZeroID, Some(0), None)],
          Some(0), [0, 1], 5, 1, map[c := [0, 1]], map[], [Marker(0, 0), Marker(0, 0)], c, [], [])
  }

  lemma HalvesHello(c: int)
    ensures Valid(StoreHEllo(c)) && Halves(c, "H", "ello") == StoreHEllo(c)
  {
    CleanSingle(c, "H", "ello");
  }

  /** The cut before deleting three characters of "ello": split into "ell" and "o". */
  function StoreHEllO(c: int): Store
  {
    Store([Block(ID(1, c), "H", false, ZeroID, ZeroID, None, Some(1)),
           Block(ID(2, c), "ell", false, ID(1, c), ZeroID, Some(0), Some(2)),
           Block(ID(5, c), "o", false, ID(4, c), ZeroID, Some(1), None)],
          Some(0), [0, 1, 2], 5, 1, map[c := [0, 1, 2]], map[], [Marker(0, 0), Marker(0, 0)], c, [], [])
  }

  /** After `Delete(1, 3)`: "ell" is a tombstone. */
  function StoreHo(c: int): Store
  {
    Store([Block(ID(1, c), "H", false, ZeroID, ZeroID, None, Some(1)),
           Block(ID(2, c), "", true, ID(1, c), ZeroID, Some(0), Some(2)),
           Block(ID(5, c), "o", false, ID(4, c), ZeroID, Some(1), None)],
          Some(0), [0, 1, 2], 5, 1, map[c := [0, 1, 2]], map[], [Marker(0, 0), Marker(0, 0)], c, [], [])
  }

  lemma SplitEllo(c: int)
    ensures Valid(StoreHEllo(c))
    ensures SplitSpec(StoreHEllo(c), 1, 3) == (Ok(2), StoreHEllO(c))
  {
    HalvesHello(c);
    var s := StoreHEllo(c);
    assert "ello"[..3] == "ell" && "ello"[3..] == "o";
    assert IndexOf([0, 1], 1) == 1;
    assert HeadCut(s.nodes, 1, 3) == [s.nodes[0], Block(ID(2, c), "ell", false, ID(1, c), ZeroID, Some(0), None)];
    assert SplitNodes(s.nodes, s.order, 1, 3) == StoreHEllO(c).nodes;
    var l := SplitLinked(s, 1, 3);
    assert l.order == [0, 1, 2];
    assert SearchAbove(l.nodes, [0, 1], 5, 2, 2) == 2;
    assert SearchAbove(l.nodes, [0, 1], 5, 0, 2) == 2;
    assert InsertAt([0, 1], 2, 2) == [0, 1, 2];
    assert AddBlockSpec(l, 2).blocks == map[c := [0, 1, 2]];
  }

  lemma CutEllo(c: int)
    ensures Valid(StoreHEllo(c))
    ensures GetItemCleanStartSpec(StoreHEllo(c), ID(5, c)) == (Ok(2), StoreHEllO(c))
  {
    SplitEllo(c);
    var s := StoreHEllo(c);
    assert ClientBlocks(s.blocks, c) == [0, 1];
    assert FirstCovering(s.nodes, [0, 1], ID(5, c)) == Some(1);
    assert FindIndexCleanStartSpec(s, [0, 1], ID(5, c)) == (Ok(2), StoreHEllO(c));
    assert ClientBlocks(StoreHEllO(c).blocks, c) == [0, 1, 2];
  }

  /** The loop cuts "ello" after "ell", tombstones "ell" and has nothing left to delete. */
  lemma CutHello(c: int)
    ensures Valid(StoreHEllo(c)) && CutAt(StoreHEllo(c), 1, 3) == (Ok(2), StoreHEllO(c))
  {
    CutEllo(c);
    assert StoreHEllo(c).nodes[1].IdAt(3) == ID(5, c);
  }

  lemma TombstoneEll(c: int)
    ensures Tombstone(StoreHEllO(c), 1) == StoreHo(c)
  {
  }

  /** One round of the deletion loop cuts "ell" off "ello" and tombstones it. */
  lemma StepHello(c: int)
    ensures CanStep(StoreHEllo(c), ListPosition(Some(0), Some(1), 1), 3)
    ensures var n := Step(StoreHEllo(c), ListPosition(Some(0), Some(1), 1), 3);
      n.store == StoreHo(c) && n.left == 0
  {
    CutHello(c);
    TombstoneEll(c);
  }

  lemma LoopHello(c: int)
    ensures Valid(StoreHEllo(c))
    ensures DeleteLoop(StoreHEllo(c), ListPosition(Some(0), Some(1), 1), 3) == (Ok(()), StoreHo(c))
  {
    var s := StoreHEllo(c);
    var bp := ListPosition(Some(0), Some(1), 1);
    StepHello(c);
    LoopUnfolds(s, bp, 3);
  }

  lemma TextHo(c: int)
    ensures InArena(StoreHo(c).order, 3) && Text(StoreHo(c)) == "Ho"
  {
    var s := StoreHo(c);
    Spells3(s.nodes, 0, 1, 2);
  }

  /**
   * Deleting three characters at 1 of "Hello" splits the block twice,
   * tombstones "ell" and spells "Ho"; `Length` stays at 5.
   */
  lemma DeleteMiddle(c: int)
    ensures var s1 := InsertSpec(NewStore(c), 0, "Hello");
      var s2 := DeleteSpec(s1.1, 1, 3);
      s1.0.Ok? && s2.0.Ok? && Text(s2.1) == "Ho" && s2.1.length == 5
  {
    FirstInsert(c, "Hello");
    assert "H" + "ello" == "Hello";
    FindSingle(c, "H", "ello");
    HalvesHello(c);
    LoopHello(c);
    TextHo(c);
  }

  // ---------------------------------------------------------------------
  // "A", "B" at 1, "C" at 2, "X" at 1, "Y" at 1: a stale marker
  // ---------------------------------------------------------------------

  /** After `Insert(2, "C")` into "AB": the walk appended the marker (B, 1). */
  function StoreABC(c: int): Store
  {
    Store([Block(ID(1, c), "A", false, ZeroID, ZeroID, None, Some(1)),
           Block(ID(2, c), "B", false, ID(1, c), ZeroID, Some(0), Some(2)),
           Block(ID(3, c), "C", false, ID(2, c), ZeroID, Some(1), None)],
          Some(0), [0, 1, 2], 3, 3, map[c := [0, 1, 2]], map[c := 3], [Marker(0, 0), Marker(0, 0), Marker(1, 1)], c, [], [])
  }

  /** After `Insert(1, "X")`: the marker (B, 1) is now one character off. */
  function StoreAXBC(c: int): Store
  {
    Store([Block(ID(1, c), "A", false, ZeroID, ZeroID, None, Some(3)),
           Block(ID(2, c), "B", false, ID(1, c), ZeroID, Some(3), Some(2)),
           Block(ID(3, c), "C", false, ID(2, c), ZeroID, Some(1), None),
           Block(ID(4, c), "X", false, ID(1, c), ID(2, c), Some(0), Some(1))],
          Some(0), [0, 3, 1, 2], 4, 4, map[c := [0, 1, 2, 3]], map[c := 4], [Marker(0, 0), Marker(0, 0), Marker(1, 1)], c, [], [])
  }

  /** After `Insert(1, "Y")`: "Y" went in before "B", after "X". */
  function StoreAXYBC(c: int): Store
  {
    Store([Block(ID(1, c), "A", false, ZeroID, ZeroID, None, Some(3)),
           Block(ID(2, c), "B", false, ID(1, c), ZeroID, Some(4), Some(2)),
           Block(ID(3, c), "C", false, ID(2, c), ZeroID, Some(1), None),
           Block(ID(4, c), "X", false, ID(1, c), ID(2, c), Some(0), Some(4)),
           Block(ID(5, c), "Y", false, ID(4, c), ID(2, c), Some(3), Some(1))],
          Some(0), [0, 3, 4, 1, 2], 5, 5, map[c := [0, 1, 2, 3, 4]], map[c := 5], [Marker(0, 0), Marker(0, 0), Marker(1, 1)], c, [], [])
  }

  /** Appending at the end of "AB": the walk stops on "B", the cursor steps over it. */
  lemma FindC(c: int)
    ensures Valid(StoreAB(c))
    ensures FindPositionSpec(StoreAB(c), 2) == (Ok(ListPosition(Some(1), None, 2)), StoreAB(c).(markers := [Marker(0, 0), Marker(0, 0), Marker(1, 1)]))
  {
    ValidAB(c);
    MarkerAtB(c, 2);
    var s1 := StoreAB(c).(markers := [Marker(0, 0), Marker(0, 0), Marker(1, 1)]);
    assert Valid(s1);
    assert FindNextSpec(s1, ListPosition(Some(0), Some(1), 1), 1) == (Ok(ListPosition(Some(1), None, 2)), s1);
  }

  lemma PlaceC(c: int)
    ensures Valid(StoreAB(c).(markers := [Marker(0, 0), Marker(0, 0), Marker(1, 1)]))
    ensures InsertAfter(StoreAB(c).(markers := [Marker(0, 0), Marker(0, 0), Marker(1, 1)]), ListPosition(Some(1), None, 2), "C") == StoreABC(c)
  {
    ValidAB(c);
    var s1 := StoreAB(c).(markers := [Marker(0, 0), Marker(0, 0), Marker(1, 1)]);
    assert Valid(s1);
    var blk := LocalBlock(s1, ListPosition(Some(1), None, 2), "C");
    assert blk == Block(ID(3, c), "C", false, ID(2, c), ZeroID, Some(1), None);
    assert !NeedsScan(s1.nodes, blk);
    assert IndexOf([0, 1], 1) == 1;
    var r := IntegrateAt(s1, blk, Some(1));
    assert r.order == [0, 1, 2];
    assert ClientBlocks(s1.blocks, c) + [2] == [0, 1, 2];
    assert r.blocks == map[c := [0, 1, 2]];
    assert r.stateVector == map[c := 3];
  }

  lemma ThenC(c: int)
    ensures Valid(StoreAB(c))
    ensures InsertSpec(StoreAB(c), 2, "C") == (Ok(()), StoreABC(c))
  {
    FindC(c);
    PlaceC(c);
  }

  lemma ValidABC(c: int)
    ensures Valid(StoreABC(c))
  {
  }

  /**
   * A lookup that a marker matches exactly leaves the markers alone and puts
   * the cursor before the marked block.
   */
  lemma FindAtMarker(s: Store, index: nat, k: nat)
    requires Valid(s) && FirstAt(s.markers, index) == Some(k)
    ensures s.markers[k].block < |s.nodes|
    ensures FindPositionSpec(s, index) == (Ok(ListPosition(s.nodes[s.markers[k].block].left, Some(s.markers[k].block), index)), s)
  {
    var m := s.markers[k];
    MarkersOnList(s.markers, s.nodes, s.order);
    assert FindMarkerSpec(s.markers, s.nodes, s.order, index) == (Ok(m), s.markers);
    assert s.(markers := s.markers) == s;
    Neighbours(s.nodes, s.order, IndexOf(s.order, m.block));
    var bp := ListPosition(s.nodes[m.block].left, Some(m.block), index);
    assert FindNextSpec(s, ListPosition(s.nodes[m.block].left, Some(m.block), m.pos), m.Beyond(index)) == (Ok(bp), s);
  }

  /** Of the markers (A, 0), (A, 0), (B, 1), the third is the first at position 1. */
  lemma MarkerHit(ms: seq<Marker>)
    requires ms == [Marker(0, 0), Marker(0, 0), Marker(1, 1)]
    ensures FirstAt(ms, 1) == Some(2)
  {
    assert ms[1..] == [Marker(0, 0), Marker(1, 1)] && ms[1..][1..] == [Marker(1, 1)];
    assert FirstAt([Marker(1, 1)], 1) == Some(0);
  }

  /** The marker (B, 1) matches position 1 exactly: the cursor is put before "B". */
  lemma FindX2(c: int)
    ensures Valid(StoreABC(c))
    ensures FindPositionSpec(StoreABC(c), 1) == (Ok(ListPosition(Some(0), Some(1), 1)), StoreABC(c))
  {
    ValidABC(c);
    var s := StoreABC(c);
    MarkerHit(s.markers);
    FindAtMarker(s, 1, 2);
    assert s.markers[2].block == 1 && s.nodes[1].left == Some(0);
  }

  lemma PlaceX2(c: int)
    ensures Valid(StoreABC(c))
    ensures InsertAfter(StoreABC(c), ListPosition(Some(0), Some(1), 1), "X") == StoreAXBC(c)
  {
    ValidABC(c);
    var s1 := StoreABC(c);
    var blk := LocalBlock(s1, ListPosition(Some(0), Some(1), 1), "X");
    assert blk == Block(ID(4, c), "X", false, ID(1, c), ID(2, c), Some(0), Some(1));
    assert !NeedsScan(s1.nodes, blk);
    assert IndexOf([0, 1, 2], 0) == 0;
    var r := IntegrateAt(s1, blk, Some(0));
    assert r.order == [0, 3, 1, 2];
    assert ClientBlocks(s1.blocks, c) + [3] == [0, 1, 2, 3];
    assert r.blocks == map[c := [0, 1, 2, 3]];
    assert r.stateVector == map[c := 4];
  }

  lemma ThenX2(c: int)
    ensures Valid(StoreABC(c))
    ensures InsertSpec(StoreABC(c), 1, "X") == (Ok(()), StoreAXBC(c))
  {
    FindX2(c);
    PlaceX2(c);
  }

  lemma ValidAXBC(c: int)
    ensures Valid(StoreAXBC(c))
  {
  }

  /** The stale marker (B, 1) still matches position 1: the cursor is put before "B", which now follows "X". */
  lemma FindY(c: int, s: Store)
    requires s == StoreAXBC(c)
    ensures Valid(s)
    ensures FindPositionSpec(s, 1) == (Ok(ListPosition(Some(3), Some(1), 1)), s)
  {
    assert s.markers[2].block == 1 && s.nodes[1].left == Some(3);
    ValidAXBC(c);
    MarkerHit(s.markers);
    FindAtMarker(s, 1, 2);
  }

  lemma PlaceY(c: int)
    ensures Valid(StoreAXBC(c))
    ensures InsertAfter(StoreAXBC(c), ListPosition(Some(3), Some(1), 1), "Y") == StoreAXYBC(c)
  {
    ValidAXBC(c);
    var s1 := StoreAXBC(c);
    var blk := LocalBlock(s1, ListPosition(Some(3), Some(1), 1), "Y");
    assert blk == Block(ID(5, c), "Y", false, ID(4, c), ID(2, c), Some(3), Some(1));
    assert !NeedsScan(s1.nodes, blk);
    assert IndexOf([0, 3, 1, 2], 3) == 1;
    var r := IntegrateAt(s1, blk, Some(3));
    assert r.order == [0, 3, 4, 1, 2];
    assert ClientBlocks(s1.blocks, c) + [4] == [0, 1, 2, 3, 4];
    assert r.blocks == map[c := [0, 1, 2, 3, 4]];
    assert r.stateVector == map[c := 5];
  }

  lemma ThenY(c: int)
    ensures Valid(StoreAXBC(c))
    ensures InsertSpec(StoreAXBC(c), 1, "Y") == (Ok(()), StoreAXYBC(c))
  {
    FindY(c, StoreAXBC(c));
    PlaceY(c);
  }

  lemma TextAXBC(c: int)
    ensures InArena(StoreAXBC(c).order, 4) && Text(StoreAXBC(c)) == "AXBC"
  {
    var s := StoreAXBC(c);
    Spells4(s.nodes, 0, 3, 1, 2);
  }

  lemma TextAXYBC(c: int)
    ensures InArena(StoreAXYBC(c).order, 5) && Text(StoreAXYBC(c)) == "AXYBC"
  {
    var s := StoreAXYBC(c);
    Spells5(s.nodes, 0, 3, 4, 1, 2);
  }

  /** "A", then "B" at 1, then "C" at 2. */
  lemma InsertABC(c: int)
    ensures var s1 := InsertSpec(NewStore(c), 0, "A");
      var s2 := InsertSpec(s1.1, 1, "B");
      var s3 := InsertSpec(s2.1, 2, "C");
      s1.0.Ok? && s2.0.Ok? && s3 == (Ok(()), StoreABC(c))
  {
    FirstInsert(c, "A");
    ThenB(c);
    ThenC(c);
  }

  /** "X" at 1 of "ABC", then "Y" at 1. */
  lemma InsertXY(c: int)
    ensures var s4 := InsertSpec(StoreABC(c), 1, "X");
      var s5 := InsertSpec(s4.1, 1, "Y");
      s4 == (Ok(()), StoreAXBC(c)) && s5 == (Ok(()), StoreAXYBC(c))
  {
    ThenX2(c);
    ThenY(c);
  }

  /**
   * `Insert` never updates the markers, so after "X" goes in at 1 of "ABC"
   * the marker (B, 1) is one character off, and the next `Insert(1, "Y")`
   * lands at offset 2 of "AXBC": "AXYBC", not "AYXBC".
   */
  lemma StaleMarkerInsert(c: int)
    ensures var s1 := InsertSpec(NewStore(c), 0, "A");
      var s2 := InsertSpec(s1.1, 1, "B");
      var s3 := InsertSpec(s2.1, 2, "C");
      var s4 := InsertSpec(s3.1, 1, "X");
      var s5 := InsertSpec(s4.1, 1, "Y");
      && s1.0.Ok? && s2.0.Ok? && s3.0.Ok? && s4.0.Ok? && s5.0.Ok?
      && Text(s4.1) == "AXBC" && Text(s5.1) == "AXYBC"
      && Text(s5.1) != Text(s4.1)[..1] + "Y" + Text(s4.1)[1..]
  {
    InsertABC(c);
    InsertXY(c);
    TextAXBC(c);
    TextAXYBC(c);
    OffByOne(Text(StoreAXBC(c)), Text(StoreAXYBC(c)));
  }

  /** Inserting "Y" at 1 of "AXBC" would give "AYXBC". */
  lemma OffByOne(t4: string, t5: string)
    requires t4 == "AXBC" && t5 == "AXYBC"
    ensures t5 != t4[..1] + "Y" + t4[1..]
  {
    assert (t4[..1] + "Y" + t4[1..])[1] == 'Y' != t5[1];
  }
}
