/**
 * Package `block` (internal/block/block.go): identifiers, blocks and the
 * cursor used to walk the block list.
 *
 * Blocks live in an arena (`seq<Block>`) owned by the block store; a Go
 * `*Block` is a `Handle`, the index of the block in that arena.  Updating a
 * block in place is updating the arena slot.  The document order that the
 * `Left`/`Right` pointers describe is named by a ghost sequence of handles,
 * tied to the pointers by `IsList`.
 */
module Blocks {
  import opened Wrappers

  /** A `*Block` pointer: the index of the block in the store's arena. */
  type Handle = nat

  /** `block.ID`.  Both fields are int64 in Go; the model leaves them unbounded. */
  datatype ID = ID(clock: int, client: int)

  /** The zero `block.ID{}`, which the store uses to mean "no origin". */
  const ZeroID: ID := ID(0, 0)

  datatype Block = Block(
    id: ID,
    content: string,
    isDeleted: bool,
    leftOrigin: ID,
    rightOrigin: ID,
    left: Option<Handle>,
    right: Option<Handle>)
  {
    /** The ID of the character `offset` places into the block. */
    function IdAt(offset: int): ID
    {
      ID(id.clock + offset, id.client)
    }

    /** How far into the block `other` lies: the inverse of `IdAt`. */
    function OffsetOf(other: ID): int
    {
      other.clock - id.clock
    }

    /** The text the block contributes to the document: nothing once deleted. */
    function Visible(): string
    {
      if isDeleted then [] else content
    }

    /** `MarkDeleted`: the tombstone keeps its identity, origins and links. */
    function MarkDeleted(): (r: Block)
      ensures r.isDeleted && r.content == [] && r.Visible() == []
      ensures r.id == id && r.leftOrigin == leftOrigin && r.rightOrigin == rightOrigin
      ensures r.left == left && r.right == right
    {
      this.(isDeleted := true, content := [])
    }
  }

  /** `NewBlock`: a fresh, live, unlinked block without origins. */
  function NewBlock(id: ID, content: string): (b: Block)
    ensures b.id == id && b.content == content && !b.isDeleted
    ensures b.leftOrigin == ZeroID && b.rightOrigin == ZeroID
    ensures b.left == None && b.right == None
    ensures b.Visible() == content
  {
    Block(id, content, false, ZeroID, ZeroID, None, None)
  }

  lemma MarkDeletedIdempotent(b: Block)
    ensures b.MarkDeleted().MarkDeleted() == b.MarkDeleted()
  {
  }

  /**
   * `IdAt` and `OffsetOf` are inverse: the ID `k` places into a block lies
   * `k` places into it, and an ID of the block's client is the ID its
   * offset names.
   */
  lemma IdAtOffsetOf(b: Block, k: int, other: ID)
    ensures b.OffsetOf(b.IdAt(k)) == k
    ensures other.client == b.id.client ==> b.IdAt(b.OffsetOf(other)) == other
  {
  }

  /** `BlockTextListPosition`: a cursor between `left` and `right` at text offset `index`. */
  datatype ListPosition = ListPosition(left: Option<Handle>, right: Option<Handle>, index: int)
  {
    /** `Forward`: step over the block on the right, counting its text unless it is deleted. */
    function Forward(nodes: seq<Block>): (r: ListPosition)
      requires right.Some? && right.value < |nodes|
      ensures r.left == right && r.right == nodes[right.value].right
      ensures r.index == index + |nodes[right.value].Visible()|
      ensures index <= r.index
    {
      var b := nodes[right.value];
      ListPosition(right, b.right, if !b.isDeleted then index + |b.content| else index)
    }
  }

  // ---------------------------------------------------------------------
  // The linked list described by the Left/Right pointers.
  // ---------------------------------------------------------------------

  ghost predicate Distinct(order: seq<Handle>)
  {
    forall i, j :: 0 <= i < j < |order| ==> order[i] != order[j]
  }

  ghost predicate InArena(order: seq<Handle>, n: nat)
  {
    forall i :: 0 <= i < |order| ==> order[i] < n
  }

  /** The left neighbour the list prescribes for position `i` of `order`. */
  function Before(order: seq<Handle>, i: nat): Option<Handle>
    requires i <= |order|
  {
    if i == 0 then None else Some(order[i - 1])
  }

  /** The right neighbour the list prescribes after position `i - 1`, i.e. the block at `i`. */
  function At(order: seq<Handle>, i: nat): Option<Handle>
    requires i <= |order|
  {
    if i == |order| then None else Some(order[i])
  }

  /**
   * `order` lists every block of the arena exactly once, and each block's
   * `left`/`right` pointers name its neighbours in that order.
   */
  ghost predicate IsList(nodes: seq<Block>, order: seq<Handle>)
  {
    && InArena(order, |nodes|)
    && Distinct(order)
    && (forall h :: 0 <= h < |nodes| ==> h in order)
    && Linked(nodes, order)
  }

  /** Each block of `order` points to its neighbours in `order`. */
  ghost predicate Linked(nodes: seq<Block>, order: seq<Handle>)
    requires InArena(order, |nodes|)
  {
    && (forall i {:trigger nodes[order[i]]} :: 0 <= i < |order| ==> nodes[order[i]].left == Before(order, i))
    && (forall i {:trigger nodes[order[i]]} :: 0 <= i < |order| ==> nodes[order[i]].right == At(order, i + 1))
  }

  lemma Neighbours(nodes: seq<Block>, order: seq<Handle>, i: nat)
    requires InArena(order, |nodes|) && Linked(nodes, order) && i < |order|
    ensures nodes[order[i]].left == Before(order, i)
    ensures nodes[order[i]].right == At(order, i + 1)
  {
  }

  /** The first block of a list: the store's `Start`. */
  function StartOf(order: seq<Handle>): Option<Handle>
  {
    At(order, 0)
  }

  /** Position of a handle in a list of handles. */
  function IndexOf(order: seq<Handle>, h: Handle): (i: nat)
    requires h in order
    ensures i < |order| && order[i] == h
    ensures forall j :: 0 <= j < i ==> order[j] != h
  {
    if order[0] == h then 0 else 1 + IndexOf(order[1..], h)
  }

  lemma IndexOfDistinct(order: seq<Handle>, i: nat)
    requires Distinct(order) && i < |order|
    ensures IndexOf(order, order[i]) == i
  {
  }

  /** Blocks whose pointers agree keep a list a list, whatever else changed. */
  lemma SameLinks(nodes: seq<Block>, nodes': seq<Block>, order: seq<Handle>)
    requires IsList(nodes, order) && |nodes'| == |nodes|
    requires forall h :: 0 <= h < |nodes| ==> nodes'[h].left == nodes[h].left && nodes'[h].right == nodes[h].right
    ensures IsList(nodes', order)
  {
  }

  /** The sequence `order` with `h` inserted at position `p`. */
  function InsertAt(order: seq<Handle>, p: nat, h: Handle): (r: seq<Handle>)
    requires p <= |order|
    ensures |r| == |order| + 1
    ensures forall i :: 0 <= i < p ==> r[i] == order[i]
    ensures r[p] == h
    ensures forall i :: p < i < |r| ==> r[i] == order[i - 1]
  {
    order[..p] + [h] + order[p..]
  }

  lemma InsertAtList(order: seq<Handle>, p: nat, h: Handle, n: nat)
    requires p <= |order| && InArena(order, n) && Distinct(order) && h == n
    ensures InArena(InsertAt(order, p, h), n + 1)
    ensures Distinct(InsertAt(order, p, h))
    ensures forall x :: 0 <= x <= n && (x < n ==> x in order) ==> x in InsertAt(order, p, h)
  {
    var o' := InsertAt(order, p, h);
    forall x | 0 <= x <= n && (x < n ==> x in order)
      ensures x in o'
    {
      if x < n {
        var k := IndexOf(order, x);
        if k < p {
          assert o'[k] == x;
        } else {
          assert o'[k + 1] == x;
        }
      } else {
        assert o'[p] == x;
      }
    }
  }

  /**
   * Linking a new block `h == |nodes|` at position `p` of the list, with the
   * block before `p` pointing right to it and the block at `p` pointing left
   * to it, yields the list with `h` inserted at `p`.  Integrate and SplitBlock
   * both link their new block this way.
   */
  lemma LinkAt(nodes: seq<Block>, order: seq<Handle>, p: nat, nodes': seq<Block>)
    requires IsList(nodes, order) && p <= |order|
    requires |nodes'| == |nodes| + 1
    requires nodes'[|nodes|].left == Before(order, p) && nodes'[|nodes|].right == At(order, p)
    requires forall x :: 0 <= x < |nodes| ==>
      nodes'[x].left == (if At(order, p) == Some(x) then Some(|nodes|) else nodes[x].left)
    requires forall x :: 0 <= x < |nodes| ==>
      nodes'[x].right == (if Before(order, p) == Some(x) then Some(|nodes|) else nodes[x].right)
    ensures IsList(nodes', InsertAt(order, p, |nodes|))
  {
    var o' := InsertAt(order, p, |nodes|);
    InsertAtList(order, p, |nodes|, |nodes|);
    LinkLefts(nodes, order, p, nodes');
    LinkRights(nodes, order, p, nodes');
  }

  /**
   * The arena after appending block `b` with its pointers set to `l` and `r`
   * and pointing `l` right and `r` left to it: the pointer writes with which
   * Integrate and SplitBlock hook a new block into the list.
   */
  function LinkIn(nodes: seq<Block>, l: Option<Handle>, r: Option<Handle>, b: Block): (n: seq<Block>)
    requires l.Some? ==> l.value < |nodes|
    requires r.Some? ==> r.value < |nodes|
    ensures |n| == |nodes| + 1
  {
    var h := |nodes|;
    var n0 := nodes + [b.(left := l, right := r)];
    var n1 := if l.Some? then n0[l.value := n0[l.value].(right := Some(h))] else n0;
    if r.Some? then n1[r.value := n1[r.value].(left := Some(h))] else n1
  }

  /** What `LinkIn` changes: the new block's pointers, `l`'s right and `r`'s left pointer, nothing else. */
  lemma LinkInFacts(nodes: seq<Block>, l: Option<Handle>, r: Option<Handle>, b: Block)
    requires l.Some? ==> l.value < |nodes|
    requires r.Some? ==> r.value < |nodes|
    requires l.Some? && r.Some? ==> l.value != r.value
    ensures var n := LinkIn(nodes, l, r, b);
      && n[|nodes|] == b.(left := l, right := r)
      && (forall x :: 0 <= x < |nodes| ==> n[x].left == (if r == Some(x) then Some(|nodes|) else nodes[x].left))
      && (forall x :: 0 <= x < |nodes| ==> n[x].right == (if l == Some(x) then Some(|nodes|) else nodes[x].right))
      && (forall x :: 0 <= x < |nodes| ==> n[x] == nodes[x].(left := n[x].left, right := n[x].right))
  {
  }

  /** Linking a new block in between the neighbours at position `p` inserts it into the list there. */
  lemma LinkInList(nodes: seq<Block>, order: seq<Handle>, p: nat, b: Block)
    requires IsList(nodes, order) && p <= |order|
    ensures Before(order, p).Some? && At(order, p).Some? ==> Before(order, p) != At(order, p)
    ensures IsList(LinkIn(nodes, Before(order, p), At(order, p), b), InsertAt(order, p, |nodes|))
  {
    var n := LinkIn(nodes, Before(order, p), At(order, p), b);
    if Before(order, p).Some? && At(order, p).Some? {
      assert order[p - 1] != order[p];
    }
    LinkInFacts(nodes, Before(order, p), At(order, p), b);
    LinkAt(nodes, order, p, n);
  }

  lemma LinkLefts(nodes: seq<Block>, order: seq<Handle>, p: nat, nodes': seq<Block>)
    requires IsList(nodes, order) && p <= |order|
    requires |nodes'| == |nodes| + 1
    requires nodes'[|nodes|].left == Before(order, p)
    requires forall x :: 0 <= x < |nodes| ==>
      nodes'[x].left == (if At(order, p) == Some(x) then Some(|nodes|) else nodes[x].left)
    ensures var o' := InsertAt(order, p, |nodes|);
      forall i :: 0 <= i < |o'| ==> nodes'[o'[i]].left == Before(o', i)
  {
    var o' := InsertAt(order, p, |nodes|);
    forall i | 0 <= i < |o'|
      ensures nodes'[o'[i]].left == Before(o', i)
    {
      if i < p {
        assert At(order, p) != Some(order[i]);
      } else if i > p + 1 {
        assert At(order, p) != Some(order[i - 1]);
      }
    }
  }

  lemma LinkRights(nodes: seq<Block>, order: seq<Handle>, p: nat, nodes': seq<Block>)
    requires IsList(nodes, order) && p <= |order|
    requires |nodes'| == |nodes| + 1
    requires nodes'[|nodes|].right == At(order, p)
    requires forall x :: 0 <= x < |nodes| ==>
      nodes'[x].right == (if Before(order, p) == Some(x) then Some(|nodes|) else nodes[x].right)
    ensures var o' := InsertAt(order, p, |nodes|);
      forall i :: 0 <= i < |o'| ==> nodes'[o'[i]].right == At(o', i + 1)
  {
    var o' := InsertAt(order, p, |nodes|);
    forall i | 0 <= i < |o'|
      ensures nodes'[o'[i]].right == At(o', i + 1)
    {
      if i + 1 < p {
        assert Before(order, p) != Some(order[i]);
      } else if i > p {
        assert Before(order, p) != Some(order[i - 1]);
      }
    }
  }

  // ---------------------------------------------------------------------
  // The text a list of blocks spells.
  // ---------------------------------------------------------------------

  /** The concatenated visible text of the blocks of `order`, left to right. */
  function ContentOf(nodes: seq<Block>, order: seq<Handle>): string
    requires InArena(order, |nodes|)
  {
    if order == [] then [] else ContentOf(nodes, order[..|order| - 1]) + nodes[order[|order| - 1]].Visible()
  }

  lemma {:induction false} ContentAppend(nodes: seq<Block>, a: seq<Handle>, b: seq<Handle>)
    requires InArena(a, |nodes|) && InArena(b, |nodes|)
    ensures InArena(a + b, |nodes|)
    ensures ContentOf(nodes, a + b) == ContentOf(nodes, a) + ContentOf(nodes, b)
  {
    if b != [] {
      var b0 := b[..|b| - 1];
      ContentAppend(nodes, a, b0);
      assert (a + b)[..|a + b| - 1] == a + b0;
    } else {
      assert a + b == a;
    }
  }

  /** The text depends only on what each listed block makes visible. */
  lemma {:induction false} ContentSameVisible(nodes: seq<Block>, nodes': seq<Block>, order: seq<Handle>)
    requires InArena(order, |nodes|) && InArena(order, |nodes'|)
    requires forall i :: 0 <= i < |order| ==> nodes'[order[i]].Visible() == nodes[order[i]].Visible()
    ensures ContentOf(nodes', order) == ContentOf(nodes, order)
  {
    if order != [] {
      ContentSameVisible(nodes, nodes', order[..|order| - 1]);
    }
  }

  /** The length of the text before position `i` of the list. */
  function TextBefore(nodes: seq<Block>, order: seq<Handle>, i: nat): nat
    requires InArena(order, |nodes|) && i <= |order|
  {
    |ContentOf(nodes, order[..i])|
  }

  lemma TextBeforeStep(nodes: seq<Block>, order: seq<Handle>, i: nat)
    requires InArena(order, |nodes|) && i < |order|
    ensures TextBefore(nodes, order, i + 1) == TextBefore(nodes, order, i) + |nodes[order[i]].Visible()|
  {
    assert order[..i + 1][..i] == order[..i];
  }

  lemma ContentOf3(nodes: seq<Block>, a: seq<Handle>, b: seq<Handle>, c: seq<Handle>)
    requires InArena(a, |nodes|) && InArena(b, |nodes|) && InArena(c, |nodes|)
    ensures InArena(a + b + c, |nodes|)
    ensures ContentOf(nodes, a + b + c) == ContentOf(nodes, a) + ContentOf(nodes, b) + ContentOf(nodes, c)
  {
    ContentAppend(nodes, a, b);
    ContentAppend(nodes, a + b, c);
  }

  /** Inserting handle `|nodes|` at `p` puts its visible text between the texts before and after `p`. */
  lemma InsertText(nodes: seq<Block>, n: seq<Block>, order: seq<Handle>, p: nat)
    requires InArena(order, |nodes|) && p <= |order| && |n| == |nodes| + 1
    requires forall x :: 0 <= x < |nodes| ==> n[x].Visible() == nodes[x].Visible()
    ensures InArena(InsertAt(order, p, |nodes|), |n|) && InArena(order[..p], |nodes|) && InArena(order[p..], |nodes|)
    ensures ContentOf(n, InsertAt(order, p, |nodes|)) == ContentOf(nodes, order[..p]) + n[|nodes|].Visible() + ContentOf(nodes, order[p..])
  {
    var pre, post, h := order[..p], order[p..], |nodes|;
    var o := InsertAt(order, p, h);
    assert o == pre + [h] + post;
    ContentOf3(n, pre, [h], post);
    SameTextIn(nodes, n, pre);
    SameTextIn(nodes, n, post);
    SingleText(n, h);
  }

  lemma SameTextIn(nodes: seq<Block>, n: seq<Block>, part: seq<Handle>)
    requires InArena(part, |nodes|) && |nodes| <= |n|
    requires forall x :: 0 <= x < |nodes| ==> n[x].Visible() == nodes[x].Visible()
    ensures ContentOf(n, part) == ContentOf(nodes, part)
  {
    ContentSameVisible(nodes, n, part);
  }

  lemma SingleText(n: seq<Block>, h: nat)
    requires h < |n|
    ensures ContentOf(n, [h]) == n[h].Visible()
  {
    assert [h][..0] == [];
  }

  /** The text after `LinkIn`: the new block's visible text lands between the texts before and after `p`. */
  lemma LinkInText(nodes: seq<Block>, order: seq<Handle>, p: nat, b: Block)
    requires IsList(nodes, order) && p <= |order|
    ensures Before(order, p).Some? && At(order, p).Some? ==> Before(order, p) != At(order, p)
    ensures var n := LinkIn(nodes, Before(order, p), At(order, p), b);
      var o := InsertAt(order, p, |nodes|);
      IsList(n, o) && InArena(order[..p], |nodes|) && InArena(order[p..], |nodes|) &&
      ContentOf(n, o) == ContentOf(nodes, order[..p]) + b.Visible() + ContentOf(nodes, order[p..])
  {
    LinkInList(nodes, order, p, b);
    var n := LinkIn(nodes, Before(order, p), At(order, p), b);
    LinkInFacts(nodes, Before(order, p), At(order, p), b);
    InsertText(nodes, n, order, p);
  }

  /** The text of a list is the text before position `k`, then block `k`'s, then the text after it. */
  lemma TextAround(nodes: seq<Block>, order: seq<Handle>, k: nat)
    requires InArena(order, |nodes|) && k < |order|
    ensures InArena(order[..k], |nodes|) && InArena(order[k + 1..], |nodes|)
    ensures ContentOf(nodes, order) == ContentOf(nodes, order[..k]) + nodes[order[k]].Visible() + ContentOf(nodes, order[k + 1..])
  {
    var a, c := order[..k], order[k + 1..];
    var m := a + [order[k]] + c;
    assert m == order;
    ContentOf3(nodes, a, [order[k]], c);
    SingleText(nodes, order[k]);
  }

  /** The text up to and including position `k`. */
  lemma TextThrough(nodes: seq<Block>, order: seq<Handle>, k: nat)
    requires InArena(order, |nodes|) && k < |order|
    ensures InArena(order[..k], |nodes|) && InArena(order[..k + 1], |nodes|)
    ensures ContentOf(nodes, order[..k + 1]) == ContentOf(nodes, order[..k]) + nodes[order[k]].Visible()
  {
    assert order[..k + 1][..k] == order[..k];
  }

  /** Regrouping four concatenated strings. */
  lemma Regroup(a: string, b: string, c: string, d: string)
    ensures (a + b) + c + d == a + (b + c) + d
  {
  }
}
