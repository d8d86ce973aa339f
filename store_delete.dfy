/**
 * `Delete(pos, length)` of internal/blockstore/store.go:132-155: find the
 * cursor at `pos`, then tombstone the blocks to its right until `length`
 * characters (a uint64 counter) are used up or the list ends, cutting the
 * block on the right with a clean-start split when it is longer than what
 * is left.
 */
module StoreDelete {
  import opened Wrappers
  import opened Blocks
  import opened StoreModel
  import opened StoreEdit

  // ---------------------------------------------------------------------
  // Text lengths of lists of blocks: raw (tombstones' content included,
  // what the loop's counter sees) or visible (what the document shows)
  // ---------------------------------------------------------------------

  /** The length a block counts for: its content when `raw`, its visible text otherwise. */
  function Width(b: Block, raw: bool): nat
  {
    if raw then |b.content| else |b.Visible()|
  }

  /** The width of every block of the arena, by handle. */
  function Widths(nodes: seq<Block>, raw: bool): seq<nat>
  {
    seq(|nodes|, x requires 0 <= x < |nodes| => Width(nodes[x], raw))
  }

  /** The summed widths `w` gives the blocks `hs`. */
  function Sum(w: seq<nat>, hs: seq<Handle>): nat
    requires InArena(hs, |w|)
  {
    if hs == [] then 0 else w[hs[0]] + Sum(w, hs[1..])
  }

  lemma {:induction false} SumAppend(w: seq<nat>, a: seq<Handle>, b: seq<Handle>)
    requires InArena(a, |w|) && InArena(b, |w|)
    ensures InArena(a + b, |w|)
    ensures Sum(w, a + b) == Sum(w, a) + Sum(w, b)
  {
    if a != [] {
      SumAppend(w, a[1..], b);
      assert (a + b)[1..] == a[1..] + b;
    } else {
      assert a + b == b;
    }
  }

  /** Widths other than `t`'s are kept, so lists without `t` keep their sum. */
  lemma {:induction false} SumExcept(w: seq<nat>, w': seq<nat>, hs: seq<Handle>, t: Handle)
    requires InArena(hs, |w|) && |w| <= |w'| && t !in hs
    requires forall x :: 0 <= x < |w| && x != t ==> w'[x] == w[x]
    ensures InArena(hs, |w'|) && Sum(w', hs) == Sum(w, hs)
  {
    if hs != [] {
      assert hs[0] != t;
      SumExcept(w, w', hs[1..], t);
    }
  }

  /** The visible length of a list is the length of the text it spells. */
  lemma {:induction false} SumText(nodes: seq<Block>, hs: seq<Handle>)
    requires InArena(hs, |nodes|)
    ensures Sum(Widths(nodes, false), hs) == |ContentOf(nodes, hs)|
  {
    if hs != [] {
      SumText(nodes, hs[1..]);
      assert hs == [hs[0]] + hs[1..];
      ContentAppend(nodes, [hs[0]], hs[1..]);
      SingleText(nodes, hs[0]);
    }
  }

  /** The text before position `j` and the visible text from `j` on make up the whole text. */
  lemma TextSplitsAt(nodes: seq<Block>, o: seq<Handle>, j: nat)
    requires InArena(o, |nodes|) && j <= |o|
    ensures TextBefore(nodes, o, j) + Sum(Widths(nodes, false), o[j..]) == |ContentOf(nodes, o)|
  {
    assert o == o[..j] + o[j..];
    ContentAppend(nodes, o[..j], o[j..]);
    SumText(nodes, o[j..]);
  }

  /** What is left of the list from block `rt` on. */
  ghost function Ahead(s: Store, rt: Handle, raw: bool): nat
    requires Valid(s) && rt < |s.nodes|
  {
    Sum(Widths(s.nodes, raw), s.order[IndexOf(s.order, rt)..])
  }

  /** How many blocks the list has from `rt` on. */
  ghost function Steps(s: Store, rt: Handle): nat
    requires Valid(s) && rt < |s.nodes|
  {
    |s.order| - IndexOf(s.order, rt)
  }

  /** The text offset of a cursor: where its right block starts, or the end of the text without one. */
  ghost function Offset(s: Store, bp: ListPosition): (q: nat)
    requires Valid(s) && (bp.right.Some? ==> bp.right.value < |s.nodes|)
    ensures q <= |Text(s)|
    ensures bp.right.Some? ==> q + Ahead(s, bp.right.value, false) == |Text(s)|
  {
    if bp.right.Some? then
      TextSplitsAt(s.nodes, s.order, IndexOf(s.order, bp.right.value));
      |Text(s)| - Ahead(s, bp.right.value, false)
    else |Text(s)|
  }

  // ---------------------------------------------------------------------
  // A split keeps what lies ahead of every block
  // ---------------------------------------------------------------------

  /** The widths a split leaves: `t` and its tail share `t`'s old width, the rest keep theirs. */
  lemma SplitWidths(nodes: seq<Block>, nodes': seq<Block>, t: Handle, diff: int, raw: bool)
    requires t < |nodes| && 0 < diff < |nodes[t].content| && SplitArena(nodes, nodes', t, diff)
    ensures var w, w' := Widths(nodes, raw), Widths(nodes', raw);
      && |w'| == |w| + 1
      && (forall x :: 0 <= x < |w| && x != t ==> w'[x] == w[x])
      && w'[t] + w'[|w|] == w[t]
  {
    forall x | 0 <= x < |nodes| && x != t
      ensures Width(nodes'[x], raw) == Width(nodes[x], raw)
    {
      assert Unchanged(nodes[x], nodes'[x], x != t);
    }
    assert Unchanged(nodes[t], nodes'[t], false);
  }

  /** A distinct list holds its element at `k` nowhere else. */
  lemma NotElsewhere(o: seq<Handle>, k: nat, j: nat, m: nat)
    requires Distinct(o) && k < |o| && j <= m <= |o| && (m <= k || k < j)
    ensures o[k] !in o[j..m]
  {
    forall i | 0 <= i < m - j
      ensures o[j..m][i] != o[k]
    {
      assert o[j..m][i] == o[j + i];
    }
  }

  /** Splitting the block at `k` keeps the sum from a block at or before it on. */
  lemma SplitAheadBefore(w: seq<nat>, w': seq<nat>, o: seq<Handle>, k: nat, j: nat)
    requires InArena(o, |w|) && Distinct(o) && j <= k < |o| && |w'| == |w| + 1
    requires forall x :: 0 <= x < |w| && x != o[k] ==> w'[x] == w[x]
    requires w'[o[k]] + w'[|w|] == w[o[k]]
    ensures var o' := InsertAt(o, k + 1, |w|);
      InArena(o'[j..], |w'|) && Sum(w', o'[j..]) == Sum(w, o[j..])
  {
    var t := o[k];
    var o' := InsertAt(o, k + 1, |w|);
    var pre, post := o[j..k], o[k + 1..];
    assert o'[j..] == pre + ([t, |w|] + post);
    assert o[j..] == pre + ([t] + post);
    NotElsewhere(o, k, j, k);
    NotElsewhere(o, k, k + 1, |o|);
    SumExcept(w, w', pre, t);
    SplitSumAt(w, w', t, post);
    SumAppend(w', pre, [t, |w|] + post);
    SumAppend(w, pre, [t] + post);
  }

  /** The block cut in two and its tail sum to what the block summed to. */
  lemma SplitSumAt(w: seq<nat>, w': seq<nat>, t: Handle, post: seq<Handle>)
    requires InArena(post, |w|) && t < |w| && t !in post && |w'| == |w| + 1
    requires forall x :: 0 <= x < |w| && x != t ==> w'[x] == w[x]
    requires w'[t] + w'[|w|] == w[t]
    ensures InArena([t, |w|] + post, |w'|) && Sum(w', [t, |w|] + post) == Sum(w, [t] + post)
  {
    SumExcept(w, w', post, t);
    assert ([t, |w|] + post)[1..] == [|w|] + post;
    assert ([|w|] + post)[1..] == post;
    assert ([t] + post)[1..] == post;
  }

  /** Splitting the block at `k` keeps the sum from a block after it on. */
  lemma SplitAheadAfter(w: seq<nat>, w': seq<nat>, o: seq<Handle>, k: nat, j: nat)
    requires InArena(o, |w|) && Distinct(o) && k < j < |o| && |w'| == |w| + 1
    requires forall x :: 0 <= x < |w| && x != o[k] ==> w'[x] == w[x]
    ensures var o' := InsertAt(o, k + 1, |w|);
      InArena(o'[j + 1..], |w'|) && Sum(w', o'[j + 1..]) == Sum(w, o[j..])
  {
    var o' := InsertAt(o, k + 1, |w|);
    assert o'[j + 1..] == o[j..];
    NotElsewhere(o, k, j, |o|);
    SumExcept(w, w', o[j..], o[k]);
  }

  /** Splitting the block at `k` keeps the sum from any listed block on. */
  lemma SplitAheadSeq(w: seq<nat>, w': seq<nat>, o: seq<Handle>, k: nat, rt: Handle)
    requires InArena(o, |w|) && Distinct(o) && k < |o| && rt in o && |w'| == |w| + 1
    requires forall x :: 0 <= x < |w| && x != o[k] ==> w'[x] == w[x]
    requires w'[o[k]] + w'[|w|] == w[o[k]]
    requires var o' := InsertAt(o, k + 1, |w|); InArena(o', |w'|) && Distinct(o')
    ensures var o' := InsertAt(o, k + 1, |w|);
      rt in o' && Sum(w', o'[IndexOf(o', rt)..]) == Sum(w, o[IndexOf(o, rt)..])
  {
    var o' := InsertAt(o, k + 1, |w|);
    var j := IndexOf(o, rt);
    var j' := if j <= k then j else j + 1;
    assert o'[j'] == rt;
    IndexOfDistinct(o', j');
    SplitAheadFrom(w, w', o, k, j, o', j');
  }

  /** The sum from the `j`-th listed block is kept, at index `j'` of the grown list. */
  lemma SplitAheadFrom(w: seq<nat>, w': seq<nat>, o: seq<Handle>, k: nat, j: nat, o': seq<Handle>, j': nat)
    requires InArena(o, |w|) && Distinct(o) && k < |o| && j < |o| && |w'| == |w| + 1
    requires forall x :: 0 <= x < |w| && x != o[k] ==> w'[x] == w[x]
    requires w'[o[k]] + w'[|w|] == w[o[k]]
    requires o' == InsertAt(o, k + 1, |w|) && j' == if j <= k then j else j + 1
    ensures j' <= |o'| && InArena(o'[j'..], |w'|) && Sum(w', o'[j'..]) == Sum(w, o[j..])
  {
    if j <= k {
      SplitAheadBefore(w, w', o, k, j);
    } else {
      SplitAheadAfter(w, w', o, k, j);
    }
  }

  /** A successful split keeps what lies ahead of `rt`. */
  lemma SplitAhead(s: Store, t: Handle, diff: int, rt: Handle, raw: bool)
    requires Valid(s) && t < |s.nodes| && 0 < diff < |s.nodes[t].content| && rt < |s.nodes|
    ensures var s' := SplitSpec(s, t, diff).1;
      rt < |s'.nodes| && Ahead(s', rt, raw) == Ahead(s, rt, raw)
  {
    SplitEffectArena(s, t, diff);
    var s' := SplitSpec(s, t, diff).1;
    SplitWidths(s.nodes, s'.nodes, t, diff, raw);
    SplitAheadSeq(Widths(s.nodes, raw), Widths(s'.nodes, raw), s.order, IndexOf(s.order, t), rt);
  }

  /** A split leaves a block it cuts with the head of its content, so a non-empty block stays non-empty. */
  lemma SplitKeepsContent(s: Store, t: Handle, diff: int, rt: Handle)
    requires Valid(s) && t < |s.nodes| && 0 < diff < |s.nodes[t].content| && rt < |s.nodes|
    ensures var s' := SplitSpec(s, t, diff).1;
      rt < |s'.nodes| && (0 < |s.nodes[rt].content| ==> 0 < |s'.nodes[rt].content|)
  {
    SplitEffectArena(s, t, diff);
    var s' := SplitSpec(s, t, diff).1;
    assert Unchanged(s.nodes[rt], s'.nodes[rt], rt != t);
  }

  /**
   * What `Delete` may change of a store: the arena (which only grows), the
   * list order and the per-client slices; everything else stays.
   */
  ghost predicate Reshaped(s: Store, s': Store)
  {
    s' == s.(nodes := s'.nodes, order := s'.order, blocks := s'.blocks) && |s.nodes| <= |s'.nodes|
  }

  lemma ReshapedTwice(s: Store, s1: Store, s2: Store)
    requires Reshaped(s, s1) && Reshaped(s1, s2)
    ensures Reshaped(s, s2)
  {
  }

  /**
   * What the loop needs of a store after `getItemCleanStart(id)`: the same
   * text, only the arena reshaped, `rt` still in the arena with the same
   * raw and visible text ahead, and still non-empty if it was.
   */
  ghost predicate CleanFacts(s: Store, s': Store, rt: Handle)
    requires Valid(s) && Valid(s') && rt < |s.nodes|
  {
    && rt < |s'.nodes|
    && Text(s') == Text(s) && Reshaped(s, s')
    && Ahead(s', rt, true) == Ahead(s, rt, true)
    && Ahead(s', rt, false) == Ahead(s, rt, false)
    && (0 < |s.nodes[rt].content| ==> 0 < |s'.nodes[rt].content|)
  }

  lemma SplitFacts(s: Store, t: Handle, diff: int, rt: Handle)
    requires Valid(s) && t < |s.nodes| && 0 < diff < |s.nodes[t].content| && rt < |s.nodes|
    ensures CleanFacts(s, SplitSpec(s, t, diff).1, rt)
  {
    SplitAhead(s, t, diff, rt, true);
    SplitAhead(s, t, diff, rt, false);
    SplitKeepsContent(s, t, diff, rt);
    SplitEffectRest(s, t, diff);
  }

  lemma CleanAheadIf(s: Store, id: ID, rt: Handle)
    requires Valid(s) && rt < |s.nodes|
    ensures var r := GetItemCleanStartSpec(s, id);
      r.0.Ok? ==> CleanFacts(s, r.1, rt)
  {
    var r := GetItemCleanStartSpec(s, id);
    if r.0.Ok? {
      var t, diff :| SplitsTo(s, t, diff, r.1);
      SplitFacts(s, t, diff, rt);
    }
  }

  /** `getItemCleanStart(id)` seen from block `rt`. */
  ghost function CleanFrom(s: Store, rt: Handle, id: ID): (r: (Result<Handle, Failure>, Store))
    requires Valid(s) && rt < |s.nodes|
    ensures Valid(r.1) && r == GetItemCleanStartSpec(s, id)
    ensures r.0.Err? ==> r.1 == s
    ensures r.0.Ok? ==> CleanFacts(s, r.1, rt)
    ensures r.0.Err? ==> r.0.error.Panic?
  {
    CleanAheadIf(s, id, rt);
    GetItemCleanStartSpec(s, id)
  }

  /**
   * The cut before deleting block `rt` with `length` characters to go: a
   * clean-start lookup of the ID `length` clocks into `rt` when `rt` is
   * longer, nothing otherwise.
   */
  ghost function CutAt(s: Store, rt: Handle, length: nat): (r: (Result<Handle, Failure>, Store))
    requires Valid(s) && rt < |s.nodes|
    ensures Valid(r.1)
    ensures r.0.Err? ==> r.1 == s
    ensures r.0.Ok? ==> CleanFacts(s, r.1, rt)
    ensures r.0.Ok? && length < |s.nodes[rt].content| ==> 0 < |r.1.nodes[rt].content|
    ensures r.0.Err? ==> r.0.error.Panic?
  {
    var b := s.nodes[rt];
    if length < |b.content| then CleanFrom(s, rt, b.IdAt(length))
    else
      assert CleanFacts(s, s, rt);
      (Ok(rt), s)
  }

  // ---------------------------------------------------------------------
  // Tombstoning one block
  // ---------------------------------------------------------------------

  /** `blockPos.Right.MarkDeleted()` on the block with handle `h`. */
  ghost function Tombstone(s: Store, h: Handle): (r: Store)
    requires Valid(s) && h < |s.nodes|
    ensures Valid(r)
    ensures r == s.(nodes := r.nodes) && |r.nodes| == |s.nodes|
    ensures r.nodes[h] == s.nodes[h].MarkDeleted()
    ensures forall x :: 0 <= x < |s.nodes| && x != h ==> r.nodes[x] == s.nodes[x]
  {
    var nodes' := s.nodes[h := s.nodes[h].MarkDeleted()];
    SameLinks(s.nodes, nodes', s.order);
    s.(nodes := nodes')
  }

  /**
   * Tombstoning `rt` empties it and nothing else: the text loses exactly
   * `rt`'s visible characters at the offset where they started.
   */
  lemma TombstoneText(s: Store, rt: Handle)
    requires Valid(s) && rt < |s.nodes|
    ensures var s2 := Tombstone(s, rt);
      Removed(Text(s), Text(s2), TextBefore(s.nodes, s.order, IndexOf(s.order, rt)), |s.nodes[rt].Visible()|)
  {
    var s2 := Tombstone(s, rt);
    assert s2.order == s.order;
    TombText(s.nodes, s2.nodes, s.order, IndexOf(s.order, rt));
  }

  /** Tombstoning `rt` changes no other block's width. */
  lemma TombWidths(s: Store, rt: Handle, raw: bool)
    requires Valid(s) && rt < |s.nodes|
    ensures var w, w' := Widths(s.nodes, raw), Widths(Tombstone(s, rt).nodes, raw);
      |w'| == |w| && forall x :: 0 <= x < |w| && x != rt ==> w'[x] == w[x]
  {
  }

  /**
   * After tombstoning `rt` the cursor steps to the next block of the list,
   * which has what lay ahead of `rt` minus `rt`.
   */
  lemma TombstoneNext(s: Store, rt: Handle, raw: bool)
    requires Valid(s) && rt < |s.nodes|
    ensures var s2 := Tombstone(s, rt);
      var j := IndexOf(s.order, rt);
      s2.nodes[rt].right.Some? ==>
        var nx := s2.nodes[rt].right.value;
        && nx < |s2.nodes|
        && IndexOf(s2.order, nx) == j + 1 && j + 1 < |s2.order|
        && Ahead(s2, nx, raw) + Width(s.nodes[rt], raw) == Ahead(s, rt, raw)
        && Steps(s2, nx) + 1 == Steps(s, rt)
  {
    var s2 := Tombstone(s, rt);
    var j := IndexOf(s.order, rt);
    Neighbours(s.nodes, s.order, j);
    if j + 1 < |s.order| {
      var nx := s.order[j + 1];
      assert s2.nodes[rt].right == Some(nx) && s2.order == s.order;
      IndexOfDistinct(s.order, j + 1);
      TombWidths(s, rt, raw);
      TombSum(Widths(s.nodes, raw), Widths(s2.nodes, raw), s.order, j);
      AheadStep(s, s2, rt, raw, j, nx);
    }
  }

  /** A store whose list is `s`'s and whose widths past `rt` sum to what lay ahead of `rt` minus `rt`. */
  lemma AheadStep(s: Store, s2: Store, rt: Handle, raw: bool, j: nat, nx: Handle)
    requires Valid(s) && Valid(s2) && s2.order == s.order && |s2.nodes| == |s.nodes|
    requires j + 1 < |s.order| && s.order[j] == rt && nx == s.order[j + 1]
    requires Sum(Widths(s2.nodes, raw), s.order[j + 1..]) + Width(s.nodes[rt], raw) == Sum(Widths(s.nodes, raw), s.order[j..])
    ensures nx < |s2.nodes| && IndexOf(s2.order, nx) == j + 1
    ensures Ahead(s2, nx, raw) + Width(s.nodes[rt], raw) == Ahead(s, rt, raw) && Steps(s2, nx) + 1 == Steps(s, rt)
  {
    IndexOfDistinct(s.order, j);
    IndexOfDistinct(s.order, j + 1);
  }

  /** At the end of the list, `rt` is all that lies ahead of it. */
  lemma TombstoneLast(s: Store, rt: Handle, raw: bool)
    requires Valid(s) && rt < |s.nodes|
    ensures s.nodes[rt].right.None? ==> Ahead(s, rt, raw) == Width(s.nodes[rt], raw)
  {
    var j := IndexOf(s.order, rt);
    Neighbours(s.nodes, s.order, j);
    if s.nodes[rt].right.None? {
      assert s.order[j..] == [rt];
      assert Sum(Widths(s.nodes, raw), s.order[j..][1..]) == 0;
    }
  }

  /**
   * Tombstoning the block on the right of a cursor cuts its visible text
   * out at the cursor's offset, and the cursor stepped over it keeps that
   * offset.
   */
  lemma TombstoneOffset(s: Store, bp: ListPosition)
    requires Valid(s) && bp.right.Some? && bp.right.value < |s.nodes|
    ensures var rt := bp.right.value;
      var s2 := Tombstone(s, rt);
      var bp' := bp.Forward(s2.nodes);
      && (bp'.right.Some? ==> bp'.right.value < |s2.nodes|)
      && Removed(Text(s), Text(s2), Offset(s, bp), |s.nodes[rt].Visible()|)
      && Offset(s2, bp') == Offset(s, bp)
  {
    var rt := bp.right.value;
    var s2 := Tombstone(s, rt);
    var k := |s.nodes[rt].Visible()|;
    TombstoneText(s, rt);
    TextSplitsAt(s.nodes, s.order, IndexOf(s.order, rt));
    assert Offset(s, bp) + Ahead(s, rt, false) == |Text(s)|;
    assert |Text(s2)| + k == |Text(s)|;
    if s2.nodes[rt].right.Some? {
      TombstoneNext(s, rt, false);
      assert Ahead(s2, s2.nodes[rt].right.value, false) + k == Ahead(s, rt, false);
    } else {
      TombstoneLast(s, rt, false);
      assert Ahead(s, rt, false) == k;
    }
  }

  /** Emptying the block at `j` takes its text out of the list's text at the offset where it started. */
  lemma TombText(nodes: seq<Block>, nodes': seq<Block>, o: seq<Handle>, j: nat)
    requires InArena(o, |nodes|) && Distinct(o) && j < |o| && |nodes'| == |nodes|
    requires forall x :: 0 <= x < |nodes| && x != o[j] ==> nodes'[x] == nodes[x]
    requires nodes'[o[j]].Visible() == []
    ensures Removed(ContentOf(nodes, o), ContentOf(nodes', o), TextBefore(nodes, o, j), |nodes[o[j]].Visible()|)
  {
    var rt := o[j];
    TextAround(nodes, o, j);
    TextAround(nodes', o, j);
    NotElsewhere(o, j, 0, j);
    NotElsewhere(o, j, j + 1, |o|);
    ContentExcept(nodes, nodes', o[..j], rt);
    ContentExcept(nodes, nodes', o[j + 1..], rt);
    CutOut(ContentOf(nodes, o), ContentOf(nodes', o), ContentOf(nodes, o[..j]), nodes[rt].Visible(),
           nodes'[rt].Visible(), ContentOf(nodes, o[j + 1..]));
  }

  /** Emptying the block at `j` leaves the sum after it as it was. */
  lemma TombSum(w: seq<nat>, w': seq<nat>, o: seq<Handle>, j: nat)
    requires InArena(o, |w|) && Distinct(o) && j + 1 < |o| && |w'| == |w|
    requires forall x :: 0 <= x < |w| && x != o[j] ==> w'[x] == w[x]
    ensures Sum(w', o[j + 1..]) + w[o[j]] == Sum(w, o[j..])
  {
    NotElsewhere(o, j, j + 1, |o|);
    SumExcept(w, w', o[j + 1..], o[j]);
    assert o[j..][1..] == o[j + 1..];
  }

  /** Blocks other than `t` are the same, so lists without `t` spell the same text. */
  lemma ContentExcept(nodes: seq<Block>, nodes': seq<Block>, hs: seq<Handle>, t: Handle)
    requires InArena(hs, |nodes|) && |nodes| <= |nodes'| && t !in hs
    requires forall x :: 0 <= x < |nodes| && x != t ==> nodes'[x] == nodes[x]
    ensures InArena(hs, |nodes'|) && ContentOf(nodes', hs) == ContentOf(nodes, hs)
  {
    forall i | 0 <= i < |hs| ensures nodes'[hs[i]].Visible() == nodes[hs[i]].Visible() {
      assert hs[i] in hs;
    }
    ContentSameVisible(nodes, nodes', hs);
  }

  // ---------------------------------------------------------------------
  // Cutting a run out of a text
  // ---------------------------------------------------------------------

  /** `t'` is `t` without the `k` characters from offset `q`. */
  ghost predicate Removed(t: string, t': string, q: nat, k: nat)
  {
    q + k <= |t| && t' == t[..q] + t[q + k..]
  }

  /** Emptying the middle of three strings cuts it out. */
  lemma CutOut(t: string, t': string, pre: string, mid: string, mid': string, post: string)
    requires t == pre + mid + post && t' == pre + mid' + post && mid' == []
    ensures Removed(t, t', |pre|, |mid|)
  {
    assert t[..|pre|] == pre;
    assert t[|pre| + |mid|..] == post;
  }

  /** Two cuts at the same offset are one longer cut. */
  lemma RemovedTwice(t: string, t1: string, t2: string, q: nat, k: nat, m: nat)
    requires Removed(t, t1, q, k) && Removed(t1, t2, q, m)
    ensures Removed(t, t2, q, k + m)
  {
    assert t1[..q] == t[..q];
    assert t1[q + m..] == t[q + k + m..];
  }

  /** `r` is `s` reshaped, with the `m` characters from offset `q` cut out of its text. */
  ghost predicate Cuts(s: Store, r: Store, q: nat, m: nat)
  {
    && InArena(s.order, |s.nodes|) && InArena(r.order, |r.nodes|)
    && Removed(Text(s), Text(r), q, m) && Reshaped(s, r)
  }

  /** Two cuts at the same offset, the second from the store the first left, are one cut; `r'` and `q'` name the same store and offset as `r` and `q`. */
  lemma CutsTwice(s: Store, s1: Store, r: Store, r': Store, q: nat, q': nat, k: nat, m: nat)
    requires Cuts(s, s1, q, k) && Cuts(s1, r, q', m) && r' == r && q' == q
    ensures Cuts(s, r', q, k + m)
  {
    RemovedTwice(Text(s), Text(s1), Text(r), q, k, m);
  }

  /** Nothing cut is no change. */
  lemma RemovedNothing(t: string, q: nat)
    requires q <= |t|
    ensures Removed(t, t, q, 0)
  {
    assert t == t[..q] + t[q..];
  }

  // ---------------------------------------------------------------------
  // What deletion does to each block
  // ---------------------------------------------------------------------

  /**
   * `b'` is block `b` cut down or tombstoned: the same ID and origins, a
   * prefix of its text, and still deleted if it was.
   */
  ghost predicate Trimmed(b: Block, b': Block)
  {
    && b'.id == b.id && b'.leftOrigin == b.leftOrigin && b'.rightOrigin == b.rightOrigin
    && b'.content <= b.content
    && (b.isDeleted ==> b'.isDeleted)
  }

  /** Every block of `nodes` is still under its handle in `nodes'`, only trimmed. */
  ghost predicate Worn(nodes: seq<Block>, nodes': seq<Block>)
  {
    |nodes| <= |nodes'| && forall x :: 0 <= x < |nodes| ==> Trimmed(nodes[x], nodes'[x])
  }

  lemma WornTwice(n0: seq<Block>, n1: seq<Block>, n2: seq<Block>)
    requires Worn(n0, n1) && Worn(n1, n2)
    ensures Worn(n0, n2)
  {
    forall x | 0 <= x < |n0|
      ensures Trimmed(n0[x], n2[x])
    {
      assert Trimmed(n0[x], n1[x]) && Trimmed(n1[x], n2[x]);
      assert n2[x].content == n1[x].content[..|n2[x].content|];
    }
  }

  /** A split keeps every block but the split one and cuts that one down to its head. */
  lemma SplitWorn(s: Store, t: Handle, diff: int)
    requires Valid(s) && t < |s.nodes| && 0 < diff < |s.nodes[t].content|
    ensures Worn(s.nodes, SplitSpec(s, t, diff).1.nodes)
  {
    SplitEffectArena(s, t, diff);
    var nodes' := SplitSpec(s, t, diff).1.nodes;
    forall x | 0 <= x < |s.nodes|
      ensures Trimmed(s.nodes[x], nodes'[x])
    {
      assert Unchanged(s.nodes[x], nodes'[x], x != t);
    }
  }

  /** A store left as it was, or split once. */
  lemma SplitOrSameWorn(s: Store, s': Store)
    requires Valid(s) && (s' == s || exists t, diff :: SplitsTo(s, t, diff, s'))
    ensures Worn(s.nodes, s'.nodes)
  {
    if s' != s {
      var t, diff :| SplitsTo(s, t, diff, s');
      SplitWorn(s, t, diff);
    }
  }

  /** Cutting and tombstoning the right block trims the arena. */
  lemma StepWorn(s: Store, bp: ListPosition, length: nat)
    requires CanStep(s, bp, length)
    ensures Worn(s.nodes, Step(s, bp, length).store.nodes)
  {
    var rt := bp.right.value;
    var s1 := CutAt(s, rt, length).1;
    var b := s.nodes[rt];
    if length < |b.content| {
      assert s1 == GetItemCleanStartSpec(s, b.IdAt(length)).1;
    }
    SplitOrSameWorn(s, s1);
    var s2 := Tombstone(s1, rt);
    assert Worn(s1.nodes, s2.nodes) by {
      forall x | 0 <= x < |s1.nodes|
        ensures Trimmed(s1.nodes[x], s2.nodes[x])
      {
        if x == rt {
          assert s2.nodes[x].content == s1.nodes[x].content[..0];
        }
      }
    }
    WornTwice(s.nodes, s1.nodes, s2.nodes);
  }

  // ---------------------------------------------------------------------
  // The deletion loop and `Delete`
  // ---------------------------------------------------------------------

  /** What lies ahead of a cursor, raw, and how many blocks: the loop's measure. */
  ghost function AheadOf(s: Store, bp: ListPosition): nat
    requires Valid(s) && (bp.right.Some? ==> bp.right.value < |s.nodes|)
  {
    if bp.right.Some? then Ahead(s, bp.right.value, true) else 0
  }

  ghost function StepsOf(s: Store, bp: ListPosition): nat
    requires Valid(s) && (bp.right.Some? ==> bp.right.value < |s.nodes|)
  {
    if bp.right.Some? then Steps(s, bp.right.value) else 0
  }

  /** The state after one round of the loop and the visible characters it took out. */
  datatype Round = Round(store: Store, cursor: ListPosition, left: nat, removed: nat)

  /** The loop goes on from the cursor `bp`: characters are left, a block is on the right and the cut there succeeded. */
  ghost predicate CanStep(s: Store, bp: ListPosition, length: nat)
  {
    && Valid(s) && length < U64 && 0 < length && bp.right.Some? && bp.right.value < |s.nodes|
    && CutAt(s, bp.right.value, length).0.Ok?
  }

  /**
   * One round of the loop once the cut succeeded: subtract the right
   * block's (cut) length from the uint64 counter, tombstone it and step
   * over it.  The round takes that block's visible text out at the cursor's
   * offset, keeps the offset, and shrinks the measure.
   */
  ghost function Step(s: Store, bp: ListPosition, length: nat): (r: Round)
    requires CanStep(s, bp, length)
    ensures Valid(r.store) && r.left < U64 && (r.cursor.right.Some? ==> r.cursor.right.value < |r.store.nodes|)
  {
    var rt := bp.right.value;
    var s1 := CutAt(s, rt, length).1;
    var s2 := Tombstone(s1, rt);
    DeleteStep(s, s1, bp);
    Round(s2, bp.Forward(s2.nodes), Sub64(length, |s1.nodes[rt].content|), |s1.nodes[rt].Visible()|)
  }

  /** A round shrinks what lies ahead of the cursor, or keeps it and passes one block: the loop ends. */
  lemma StepShrinks(s: Store, bp: ListPosition, length: nat)
    requires CanStep(s, bp, length)
    ensures var r := Step(s, bp, length);
      || AheadOf(r.store, r.cursor) < AheadOf(s, bp)
      || (AheadOf(r.store, r.cursor) == AheadOf(s, bp) && StepsOf(r.store, r.cursor) < StepsOf(s, bp))
  {
    var rt := bp.right.value;
    TombstoneNext(CutAt(s, rt, length).1, rt, true);
  }

  /** A round takes the right block's visible text out at the cursor's offset and keeps that offset. */
  lemma StepCuts(s: Store, bp: ListPosition, length: nat)
    requires CanStep(s, bp, length)
    ensures var r := Step(s, bp, length);
      Cuts(s, r.store, Offset(s, bp), r.removed) && Offset(r.store, r.cursor) == Offset(s, bp)
  {
    DeleteStep(s, CutAt(s, bp.right.value, length).1, bp);
  }

  /**
   * The loop of `Delete` from the cursor `bp` with `length` characters to
   * go: while some are left and there is a block on the right, cut that
   * block at the remaining length if it is longer, then run a round.
   */
  ghost function DeleteLoop(s: Store, bp: ListPosition, length: nat): (r: (Result<(), Failure>, Store))
    requires Valid(s) && length < U64 && (bp.right.Some? ==> bp.right.value < |s.nodes|)
    ensures Valid(r.1)
    ensures r.0.Err? ==> r.0.error.Panic?
    decreases AheadOf(s, bp), StepsOf(s, bp)
  {
    if length == 0 || bp.right.None? then (Ok(()), s)
    else
      var clean := CutAt(s, bp.right.value, length);
      if clean.0.Err? then (Err(clean.0.error), clean.1)
      else
        var n := Step(s, bp, length);
        StepShrinks(s, bp, length);
        DeleteLoop(n.store, n.cursor, n.left)
  }

  /** One turn of `Delete`'s loop: a failed cut ends it, a successful one runs a round and goes on. */
  lemma LoopUnfolds(s: Store, bp: ListPosition, length: nat)
    requires Valid(s) && length < U64 && 0 < length && bp.right.Some? && bp.right.value < |s.nodes|
    ensures var cut := CutAt(s, bp.right.value, length);
      && (cut.0.Err? ==> DeleteLoop(s, bp, length) == (Err(cut.0.error), cut.1))
      && (cut.0.Ok? ==> var n := Step(s, bp, length); DeleteLoop(s, bp, length) == DeleteLoop(n.store, n.cursor, n.left))
  {
  }

  /** A successful cut makes the loop go on after one round. */
  lemma LoopGoesOn(s: Store, bp: ListPosition, length: nat)
    requires CanStep(s, bp, length)
    ensures var n := Step(s, bp, length); DeleteLoop(s, bp, length).1 == DeleteLoop(n.store, n.cursor, n.left).1
  {
  }

  /**
   * The loop only tombstones and splits: the text loses one run of
   * characters starting at the cursor's offset, no field other than the
   * arena, the list order and the per-client slices changes, and every
   * block keeps its handle, ID and origins, is only cut down to a prefix
   * of its text, and stays deleted if it was.
   */
  lemma {:induction false} DeleteRun(s: Store, bp: ListPosition, length: nat) returns (m: nat)
    requires Valid(s) && length < U64 && (bp.right.Some? ==> bp.right.value < |s.nodes|)
    ensures Cuts(s, DeleteLoop(s, bp, length).1, Offset(s, bp), m)
    ensures Worn(s.nodes, DeleteLoop(s, bp, length).1.nodes)
    decreases AheadOf(s, bp), StepsOf(s, bp)
  {
    if length == 0 || bp.right.None? || CutAt(s, bp.right.value, length).0.Err? {
      assert DeleteLoop(s, bp, length).1 == s by {
        if length != 0 && bp.right.Some? {
          LoopUnfolds(s, bp, length);
        }
      }
      RemovedNothing(Text(s), Offset(s, bp));
      return 0;
    }
    var n := Step(s, bp, length);
    StepShrinks(s, bp, length);
    var m' := DeleteRun(n.store, n.cursor, n.left);
    StepCuts(s, bp, length);
    StepWorn(s, bp, length);
    LoopGoesOn(s, bp, length);
    WornTwice(s.nodes, n.store.nodes, DeleteLoop(n.store, n.cursor, n.left).1.nodes);
    CutsTwice(s, n.store, DeleteLoop(n.store, n.cursor, n.left).1, DeleteLoop(s, bp, length).1,
              Offset(s, bp), Offset(n.store, n.cursor), n.removed, m');
    m := n.removed + m';
  }

  /** After the cut, tombstoning the right block takes its visible text out at the cursor's offset. */
  lemma DeleteStep(s: Store, s1: Store, bp: ListPosition)
    requires Valid(s) && Valid(s1) && bp.right.Some? && bp.right.value < |s.nodes|
    requires CleanFacts(s, s1, bp.right.value)
    ensures var s2 := Tombstone(s1, bp.right.value);
      var bp' := bp.Forward(s2.nodes);
      && (bp'.right.Some? ==> bp'.right.value < |s2.nodes|)
      && Removed(Text(s), Text(s2), Offset(s, bp), |s1.nodes[bp.right.value].Visible()|)
      && Offset(s2, bp') == Offset(s, bp)
      && Reshaped(s, s2)
  {
    TombstoneOffset(s1, bp);
    assert Offset(s1, bp) == Offset(s, bp);
  }

  /**
   * `Delete(pos, length)`: a length beyond the store's `Length` is refused
   * with the store as it was; otherwise the cursor at `pos` is found (its
   * failures are returned with the store as the lookup left it) and the
   * loop runs from there.
   */
  ghost function DeleteSpec(s: Store, pos: nat, length: nat): (r: (Result<(), Failure>, Store))
    requires Valid(s) && length < U64
    ensures Valid(r.1)
  {
    if length > s.length then (Err(DeleteTooLong(length, s.length)), s)
    else
      var found := FindPositionSpec(s, pos);
      if found.0.Err? then (Err(found.0.error), found.1)
      else DeleteLoop(found.1, found.0.value, length)
  }

  /**
   * `Delete` refuses with a length error exactly when `length` exceeds the
   * store's `Length`, and then leaves the store as it was.
   */
  lemma DeleteRefuses(s: Store, pos: nat, length: nat)
    requires Valid(s) && length < U64
    ensures var r := DeleteSpec(s, pos, length);
      (r.0.Err? && r.0.error.DeleteTooLong?) <==> length > s.length
    ensures length > s.length ==> DeleteSpec(s, pos, length) == (Err(DeleteTooLong(length, s.length)), s)
  {
  }

  /** The lookup only moves markers and splits: what `Delete` may change besides them. */
  lemma PositionReshapes(s: Store, index: nat)
    requires Valid(s)
    ensures var r := FindPositionSpec(s, index).1; Reshaped(s.(markers := r.markers), r)
  {
    var r := FindPositionSpec(s, index).1;
    var s1 := s.(markers := r.markers);
    assert Valid(s1);
    if r != s1 {
      var t, diff :| SplitsTo(s1, t, diff, r);
      SplitEffectRest(s1, t, diff);
    }
  }

  /**
   * What `Delete` does to a store it accepts: its text loses one run of
   * characters, and of its fields only the arena (which only grows), the
   * list order, the per-client slices and the markers change, so `Length`,
   * the clock, the state vector, the client and the pending queues stay;
   * every block keeps its handle, ID and origins, is only cut down to a
   * prefix of its text, and stays deleted if it was.
   */
  lemma DeleteRemovesRun(s: Store, pos: nat, length: nat) returns (q: nat, m: nat)
    requires Valid(s) && length < U64
    ensures var r := DeleteSpec(s, pos, length).1;
      && Removed(Text(s), Text(r), q, m)
      && r == s.(nodes := r.nodes, order := r.order, blocks := r.blocks, markers := r.markers)
      && |s.nodes| <= |r.nodes|
      && Worn(s.nodes, r.nodes)
  {
    if length > s.length {
      RemovedNothing(Text(s), 0);
      return 0, 0;
    }
    var found := FindPositionSpec(s, pos);
    PositionKeeps(s, pos);
    PositionReshapes(s, pos);
    SplitOrSameWorn(s.(markers := found.1.markers), found.1);
    if found.0.Err? {
      RemovedNothing(Text(s), 0);
      return 0, 0;
    }
    m := DeleteRun(found.1, found.0.value, length);
    WornTwice(s.nodes, found.1.nodes, DeleteSpec(s, pos, length).1.nodes);
    q := Offset(found.1, found.0.value);
  }
}
