/**
 * The marker system (internal/marker/marker.go): a cache of
 * `(block, text position)` pairs used to start searches in the block list
 * somewhere other than its head.
 *
 * The markers point into the block store's arena; the methods that follow
 * `Left`/`Right` pointers take that arena as a parameter, together with the
 * ghost document order that `IsList` ties to it.  Marker timestamps are not
 * modelled.
 */
module Marker {
  import opened Wrappers
  import opened Blocks
  import opened Utils

  datatype MarkerError = ErrNoMarkers | ErrInvalidPos | ErrBlockNotFound

  /** `OpType` is an int8; the zero value means "no operation". */
  type OpType = int

  const OpAdd: OpType := 1
  const OpDel: OpType := 2

  /** A marker: the block at `block` starts at text position `pos`. */
  datatype Marker = Marker(block: Handle, pos: int)
  {
    /** How far text position `index` lies beyond the marked block's start. */
    function Beyond(index: int): int
    {
      index - pos
    }
  }

  ghost predicate MarkersIn(ms: seq<Marker>, n: nat)
  {
    forall k :: 0 <= k < |ms| ==> ms[k].block < n
  }

  /** Every marker names a block of the list `order`. */
  ghost predicate MarkersOn(ms: seq<Marker>, order: seq<Handle>)
  {
    forall k :: 0 <= k < |ms| ==> ms[k].block in order
  }

  lemma MarkersOnList(ms: seq<Marker>, nodes: seq<Block>, order: seq<Handle>)
    requires IsList(nodes, order) && MarkersIn(ms, |nodes|)
    ensures MarkersOn(ms, order)
  {
  }

  /** The index of the first marker at position `pos`, if any. */
  function FirstAt(ms: seq<Marker>, pos: int): (r: Option<nat>)
    ensures r.Some? ==> r.value < |ms| && ms[r.value].pos == pos
    ensures r.Some? ==> forall j :: 0 <= j < r.value ==> ms[j].pos != pos
    ensures r.None? <==> forall j :: 0 <= j < |ms| ==> ms[j].pos != pos
  {
    if ms == [] then None
    else if ms[0].pos == pos then Some(0)
    else match FirstAt(ms[1..], pos)
      case None => None
      case Some(k) => Some(k + 1)
  }

  /**
   * The rightward walk of `FindMarker`, from position `i` of the list with the
   * text offset `p`: it stops at the last block, once `p` reaches `pos`, or at
   * a live block that covers `pos`.  Deleted blocks add nothing to `p`.
   */
  function WalkRight(nodes: seq<Block>, order: seq<Handle>, i: nat, p: int, pos: int): (r: (nat, int))
    requires InArena(order, |nodes|) && i < |order|
    ensures i <= r.0 < |order| && p <= r.1
    decreases |order| - i
  {
    var b := nodes[order[i]];
    if i + 1 == |order| || p >= pos then (i, p)
    else if !b.isDeleted && pos < p + |b.content| then (i, p)
    else WalkRight(nodes, order, i + 1, p + |b.Visible()|, pos)
  }

  /**
   * The leftward walk of `FindMarker`.  As in the source, each step subtracts
   * the length of the block it leaves, not of the block it moves to.
   */
  function WalkLeft(nodes: seq<Block>, order: seq<Handle>, i: nat, p: int, pos: int): (r: (nat, int))
    requires InArena(order, |nodes|) && i < |order|
    ensures r.0 <= i && r.1 <= p
    decreases i
  {
    var b := nodes[order[i]];
    if i == 0 || p <= pos then (i, p)
    else if !b.isDeleted && pos >= p - |b.content| then (i, p)
    else WalkLeft(nodes, order, i - 1, p - |b.Visible()|, pos)
  }

  /**
   * `FindMarker`: the result and the new marker list.  With no markers it
   * fails; a marker exactly at `pos` is returned as it is; otherwise the walk
   * starts at the first marker and the marker it ends on is appended.
   */
  function FindMarkerSpec(ms: seq<Marker>, nodes: seq<Block>, order: seq<Handle>, pos: int): (r: (Result<Marker, MarkerError>, seq<Marker>))
    requires InArena(order, |nodes|) && MarkersOn(ms, order)
    ensures ms == [] <==> r.0.Err?
    ensures r.0.Err? ==> r.0.error == ErrNoMarkers && r.1 == ms
    ensures (exists k :: 0 <= k < |ms| && ms[k].pos == pos) ==>
      r.1 == ms && r.0.Ok? && r.0.value.pos == pos &&
      (exists k :: 0 <= k < |ms| && ms[k] == r.0.value && forall j :: 0 <= j < k ==> ms[j].pos != pos)
    ensures ms != [] && (forall k :: 0 <= k < |ms| ==> ms[k].pos != pos) ==>
      r.0.Ok? && r.1 == ms + [r.0.value]
    ensures MarkersOn(r.1, order)
  {
    if ms == [] then (Err(ErrNoMarkers), ms)
    else match FirstAt(ms, pos)
      case Some(k) => (Ok(ms[k]), ms)
      case None =>
        var right := WalkRight(nodes, order, IndexOf(order, ms[0].block), ms[0].pos, pos);
        var left := WalkLeft(nodes, order, right.0, right.1, pos);
        var m := Marker(order[left.0], left.1);
        (Ok(m), ms + [m])
  }

  /**
   * A walk that starts from an accurate offset (the length of the text before
   * the block) ends on an accurate offset, at or before `pos`, on the block
   * that covers `pos`, or on the last block, or exactly at `pos`.
   */
  lemma {:induction false} WalkRightFindsBlock(nodes: seq<Block>, order: seq<Handle>, i: nat, p: int, pos: int)
    requires InArena(order, |nodes|) && i < |order|
    requires p == TextBefore(nodes, order, i) && p <= pos
    ensures var r := WalkRight(nodes, order, i, p, pos);
      && r.1 == TextBefore(nodes, order, r.0)
      && r.1 <= pos
      && (r.1 == pos || pos < r.1 + |nodes[order[r.0]].Visible()| || r.0 + 1 == |order|)
    decreases |order| - i
  {
    var b := nodes[order[i]];
    if i + 1 == |order| || p >= pos {
    } else if !b.isDeleted && pos < p + |b.content| {
    } else {
      TextBeforeStep(nodes, order, i);
      WalkRightFindsBlock(nodes, order, i + 1, p + |b.Visible()|, pos);
      assert WalkRight(nodes, order, i, p, pos) == WalkRight(nodes, order, i + 1, p + |b.Visible()|, pos);
    }
  }

  /** Starting at or before `pos`, the left walk does not move. */
  lemma WalkLeftIdle(nodes: seq<Block>, order: seq<Handle>, i: nat, p: int, pos: int)
    requires InArena(order, |nodes|) && i < |order| && p <= pos
    ensures WalkLeft(nodes, order, i, p, pos) == (i, p)
  {
  }

  /**
   * When the first marker is accurate and not beyond `pos`, the marker
   * `FindMarker` appends is accurate and sits on the block covering `pos`
   * (or on the last block).
   */
  lemma FindMarkerAccurate(ms: seq<Marker>, nodes: seq<Block>, order: seq<Handle>, pos: int)
    requires IsList(nodes, order) && MarkersOn(ms, order) && ms != []
    requires forall k :: 0 <= k < |ms| ==> ms[k].pos != pos
    requires ms[0].pos <= pos && ms[0].pos == TextBefore(nodes, order, IndexOf(order, ms[0].block))
    ensures var m := FindMarkerSpec(ms, nodes, order, pos).0.value;
      var i := IndexOf(order, m.block);
      && m.pos == TextBefore(nodes, order, i)
      && m.pos <= pos
      && (m.pos == pos || pos < m.pos + |nodes[m.block].Visible()| || i + 1 == |order|)
  {
    var i0 := IndexOf(order, ms[0].block);
    var right := WalkRight(nodes, order, i0, ms[0].pos, pos);
    WalkRightFindsBlock(nodes, order, i0, ms[0].pos, pos);
    WalkLeftIdle(nodes, order, right.0, right.1, pos);
    IndexOfDistinct(order, right.0);
  }

  /** The marker list after `UpdateMarkers`: markers at or after `pos` move by `delta`. */
  function Shift(op: OpType, delta: int): int
  {
    if op == OpAdd then delta else if op == OpDel then -delta else 0
  }

  /** The markers whose position is not `pos`, in their original order. */
  function Without(ms: seq<Marker>, pos: int): (r: seq<Marker>)
    ensures |r| <= |ms|
    ensures forall m :: m in r <==> m in ms && m.pos != pos
    ensures (forall k :: 0 <= k < |ms| ==> ms[k].pos != pos) ==> r == ms
  {
    if ms == [] then []
    else
      var last := ms[|ms| - 1];
      var init := ms[..|ms| - 1];
      assert ms == init + [last];
      Without(init, pos) + (if last.pos != pos then [last] else [])
  }

  /** One more marker: it is kept exactly when it is not at `pos`. */
  lemma WithoutSnoc(ms: seq<Marker>, k: nat, pos: int)
    requires k < |ms|
    ensures Without(ms[..k + 1], pos) == Without(ms[..k], pos) + (if ms[k].pos != pos then [ms[k]] else [])
  {
    assert ms[..k + 1][..k] == ms[..k];
  }

  /** Filtering a concatenation filters each part and keeps them in order. */
  lemma {:induction false} WithoutAppend(a: seq<Marker>, b: seq<Marker>, pos: int)
    ensures Without(a + b, pos) == Without(a, pos) + Without(b, pos)
    decreases |b|
  {
    if b != [] {
      var init := b[..|b| - 1];
      var last := b[|b| - 1];
      assert a + b == (a + init) + [last];
      assert b == init + [last];
      WithoutAppend(a, init, pos);
    } else {
      assert a + b == a;
    }
  }

  /** A single marker is kept exactly when it is not at `pos`. */
  lemma WithoutOne(m: Marker, pos: int)
    ensures Without([m], pos) == if m.pos != pos then [m] else []
  {
    assert [m][..0] == [];
  }

  /**
   * Filtering keeps the markers not at `pos` in their order and with their
   * multiplicity: the one at `k` comes right after those kept before it.
   */
  lemma WithoutKeepsOrder(ms: seq<Marker>, pos: int, k: nat)
    requires k < |ms| && ms[k].pos != pos
    ensures var before := Without(ms[..k], pos);
      |before| < |Without(ms, pos)| && Without(ms, pos)[|before|] == ms[k]
  {
    assert ms == ms[..k] + [ms[k]] + ms[k + 1..];
    WithoutAppend(ms[..k] + [ms[k]], ms[k + 1..], pos);
    WithoutAppend(ms[..k], [ms[k]], pos);
    WithoutOne(ms[k], pos);
  }

  /** Removing the markers at a position twice is removing them once. */
  lemma {:induction false} WithoutIdempotent(ms: seq<Marker>, pos: int)
    ensures Without(Without(ms, pos), pos) == Without(ms, pos)
  {
    var r := Without(ms, pos);
    assert forall k :: 0 <= k < |r| ==> r[k] in r;
  }

  /** The rightward pointer walk of `FindMarker`, from the block at position `i` of the list. */
  method RightWalk(nodes: seq<Block>, ghost order: seq<Handle>, b0: Handle, p0: int, pos: int, ghost i0: nat)
    returns (b: Handle, p: int)
    requires InArena(order, |nodes|) && Linked(nodes, order) && i0 < |order| && order[i0] == b0
    ensures var r := WalkRight(nodes, order, i0, p0, pos); b == order[r.0] && p == r.1
  {
    b, p := b0, p0;
    ghost var i := i0;
    ghost var walked := WalkRight(nodes, order, i0, p0, pos);
    Neighbours(nodes, order, i);
    while nodes[b].right.Some? && p < pos
      invariant 0 <= i < |order| && order[i] == b
      invariant WalkRight(nodes, order, i, p, pos) == walked
      decreases |order| - i
    {
      Neighbours(nodes, order, i);
      if !nodes[b].isDeleted {
        if pos < p + |nodes[b].content| {
          break;
        }
        p := p + |nodes[b].content|;
      }
      b := nodes[b].right.value;
      i := i + 1;
    }
  }

  /** The leftward pointer walk of `FindMarker`, from the block at position `i` of the list. */
  method LeftWalk(nodes: seq<Block>, ghost order: seq<Handle>, b0: Handle, p0: int, pos: int, ghost i0: nat)
    returns (b: Handle, p: int)
    requires InArena(order, |nodes|) && Linked(nodes, order) && i0 < |order| && order[i0] == b0
    ensures var r := WalkLeft(nodes, order, i0, p0, pos); b == order[r.0] && p == r.1
  {
    b, p := b0, p0;
    ghost var i := i0;
    ghost var walked := WalkLeft(nodes, order, i0, p0, pos);
    Neighbours(nodes, order, i);
    while nodes[b].left.Some? && p > pos
      invariant 0 <= i < |order| && order[i] == b
      invariant WalkLeft(nodes, order, i, p, pos) == walked
      decreases i
    {
      Neighbours(nodes, order, i);
      if !nodes[b].isDeleted {
        if pos >= p - |nodes[b].content| {
          break;
        }
        p := p - |nodes[b].content|;
      }
      b := nodes[b].left.value;
      i := i - 1;
    }
  }

  class MarkerSystem {
    var markers: seq<Marker>

    /** `NewSystem`. */
    constructor ()
      ensures markers == []
    {
      markers := [];
    }

    /** `Add`: append one marker. */
    method Add(block: Handle, pos: int)
      modifies this
      ensures markers == old(markers) + [Marker(block, pos)]
    {
      markers := markers + [Marker(block, pos)];
    }

    /** `FindMarker`, over the arena `nodes` whose document order is `order`. */
    method FindMarker(pos: int, nodes: seq<Block>, ghost order: seq<Handle>) returns (r: Result<Marker, MarkerError>)
      requires IsList(nodes, order) && MarkersIn(markers, |nodes|)
      modifies this
      ensures MarkersOn(old(markers), order)
      ensures (r, markers) == FindMarkerSpec(old(markers), nodes, order, pos)
    {
      MarkersOnList(markers, nodes, order);
      if |markers| == 0 {
        return Err(ErrNoMarkers);
      }
      for k := 0 to |markers|
        invariant forall j :: 0 <= j < k ==> markers[j].pos != pos
      {
        if markers[k].pos == pos {
          return Ok(markers[k]);
        }
      }
      ghost var i0 := IndexOf(order, markers[0].block);
      var b, p := RightWalk(nodes, order, markers[0].block, markers[0].pos, pos, i0);
      ghost var right := WalkRight(nodes, order, i0, markers[0].pos, pos);
      b, p := LeftWalk(nodes, order, b, p, pos, right.0);
      var final := Marker(b, p);
      markers := markers + [final];
      return Ok(final);
    }

    /**
     * `UpdateMarkers`: every marker at or after `pos` moves by `+delta`
     * (`OpAdd`) or `-delta` (`OpDel`); any other operation changes nothing.
     */
    method UpdateMarkers(pos: int, delta: int, op: OpType)
      modifies this
      ensures |markers| == |old(markers)|
      ensures forall k :: 0 <= k < |markers| ==> markers[k].block == old(markers)[k].block
      ensures forall k :: 0 <= k < |markers| ==>
        markers[k].pos == old(markers)[k].pos + (if old(markers)[k].pos >= pos then Shift(op, delta) else 0)
    {
      for k := 0 to |markers|
        invariant |markers| == |old(markers)|
        invariant forall j :: 0 <= j < |markers| ==> markers[j].block == old(markers)[j].block
        invariant forall j :: 0 <= j < k ==>
          markers[j].pos == old(markers)[j].pos + (if old(markers)[j].pos >= pos then Shift(op, delta) else 0)
        invariant forall j :: k <= j < |markers| ==> markers[j] == old(markers)[j]
      {
        if markers[k].pos >= pos {
          if op == OpAdd {
            markers := markers[k := markers[k].(pos := markers[k].pos + delta)];
          } else if op == OpDel {
            markers := markers[k := markers[k].(pos := markers[k].pos - delta)];
          }
        }
      }
    }

    /** `DeleteMarkerAt`: drop every marker at `pos`. */
    method DeleteMarkerAt(pos: int)
      modifies this
      ensures markers == Without(old(markers), pos)
    {
      var ms, kept: seq<Marker> := markers, [];
      for k := 0 to |ms|
        invariant kept == Without(ms[..k], pos)
      {
        WithoutSnoc(ms, k, pos);
        if ms[k].pos != pos {
          kept := kept + [ms[k]];
        }
      }
      assert ms[..|ms|] == ms;
      markers := kept;
    }

    /** `DeleteMarkerAtPosition`: the source repeats the loop of `DeleteMarkerAt`. */
    method DeleteMarkerAtPosition(pos: int)
      modifies this
      ensures markers == Without(old(markers), pos)
    {
      DeleteMarkerAt(pos);
    }

    /** `DestroyMarkers`. */
    method DestroyMarkers()
      modifies this
      ensures markers == []
    {
      markers := [];
    }

    /** `GetBlockPositionByClock`: the position of the first marker on a block with this ID. */
    method GetBlockPositionByClock(id: ID, nodes: seq<Block>) returns (r: Result<int, MarkerError>)
      requires MarkersIn(markers, |nodes|)
      ensures r.Err? <==> forall k :: 0 <= k < |markers| ==> nodes[markers[k].block].id != id
      ensures r.Err? ==> r.error == ErrInvalidPos
      ensures r.Ok? ==> exists k :: 0 <= k < |markers| && nodes[markers[k].block].id == id && r.value == markers[k].pos &&
                                   forall j :: 0 <= j < k ==> nodes[markers[j].block].id != id
    {
      for k := 0 to |markers|
        invariant forall j :: 0 <= j < k ==> nodes[markers[j].block].id != id
      {
        if EqualID(nodes[markers[k].block].id, id) {
          return Ok(markers[k].pos);
        }
      }
      return Err(ErrInvalidPos);
    }

    /**
     * `GetBlockPositionByID`: no markers, then a nil ID, then no marker on a
     * block with that ID, are reported in that order.
     */
    method GetBlockPositionByID(id: Option<ID>, nodes: seq<Block>) returns (r: Result<int, MarkerError>)
      requires MarkersIn(markers, |nodes|)
      ensures markers == [] ==> r == Err(ErrNoMarkers)
      ensures markers != [] && id.None? ==> r == Err(ErrInvalidPos)
      ensures markers != [] && id.Some? ==>
        (r.Err? <==> forall k :: 0 <= k < |markers| ==> nodes[markers[k].block].id != id.value)
      ensures markers != [] && id.Some? && r.Err? ==> r.error == ErrBlockNotFound
      ensures r.Ok? ==> id.Some? && exists k :: 0 <= k < |markers| && nodes[markers[k].block].id == id.value &&
                                              r.value == markers[k].pos &&
                                              forall j :: 0 <= j < k ==> nodes[markers[j].block].id != id.value
    {
      if |markers| == 0 {
        return Err(ErrNoMarkers);
      }
      if id.None? {
        return Err(ErrInvalidPos);
      }
      for k := 0 to |markers|
        invariant forall j :: 0 <= j < k ==> nodes[markers[j].block].id != id.value
      {
        if EqualIDPtr(Some(nodes[markers[k].block].id), id) {
          return Ok(markers[k].pos);
        }
      }
      return Err(ErrBlockNotFound);
    }
  }
}
