/**
 * Tree shape and the one structural mutation of src/servo/dom/node.rs, `append_child`.
 *
 * `AppendChildEffect` is the operation exactly as the source writes it: it never updates the
 * parent's `last_child`. `AppendChildCorrectedEffect` adds that one missing write; only the
 * corrected operation keeps the document-tree invariant `TreeInv`.
 */
module DomTree {
  import opened Wrappers
  import opened DomNode

  /** The structure with all five links cleared: what a link write must leave alone. */
  function Unlinked(v: Variant): Variant
  {
    v.(base := v.base.(parent_node := None, first_child := None, last_child := None,
                       next_sibling := None, prev_sibling := None))
  }

  /**
   * One write to the links of the record behind `n`: the record becomes `b`, which keeps the
   * tag and the layout slot; every other allocation is untouched.
   */
  function Rewrite(h: Heap, n: AbstractNode, b: Node): (r: Heap)
    requires Wf(h) && ValidHandle(h, n) && LinksInRange(h, b)
    requires b.type_id == h[n.obj].base.type_id && b.layout_data == h[n.obj].base.layout_data
    ensures |r| == |h| && Wf(r)
    ensures r[n.obj] == h[n.obj].(base := b)
    ensures forall i :: 0 <= i < |h| && i != n.obj ==> r[i] == h[i]
    ensures forall i :: 0 <= i < |h| ==> Unlinked(r[i]) == Unlinked(h[i])
  {
    h[n.obj := h[n.obj].(base := b)]
  }

  /** The guards `append_child(p, c)` checks before it writes anything. */
  predicate CanAppend(h: Heap, p: AbstractNode, c: AbstractNode)
    requires Wf(h) && ValidHandle(h, c)
  {
    p != c && Parent(h, c).None? && PrevSibling(h, c).None? && NextSibling(h, c).None?
  }

  /** What a call does: how it ended, and the arena it leaves behind (also on an abort). */
  datatype Effect = Effect(status: Outcome<()>, heap: Heap)

  /**
   * `append_child(p, c)` as written. The guards abort before any write, except the check on
   * the old last child, which runs after `c`'s parent has been set. The parent's `last_child`
   * is never assigned.
   */
  function AppendChildEffect(h: Heap, p: AbstractNode, c: AbstractNode): (e: Effect)
    requires Wf(h) && ValidHandle(h, p) && ValidHandle(h, c)
    ensures |e.heap| == |h| && Wf(e.heap)
    ensures forall i :: 0 <= i < |h| ==> Unlinked(e.heap[i]) == Unlinked(h[i])
    ensures e.status == Fail(SelfAppend) <==> p == c
    ensures e.status == Fail(ChildHasParent) <==> p != c && Parent(h, c).Some?
    ensures e.status == Fail(ChildHasPrevSibling) <==> p != c && Parent(h, c).None? && PrevSibling(h, c).Some?
    ensures e.status == Fail(ChildHasNextSibling) <==>
              p != c && Parent(h, c).None? && PrevSibling(h, c).None? && NextSibling(h, c).Some?
    ensures e.status == Fail(LastChildHasNextSibling) <==>
              CanAppend(h, p, c) && LastChild(h, p).Some? && NextSibling(h, LastChild(h, p).value).Some?
    ensures e.status.Ok? <==>
              CanAppend(h, p, c) && (LastChild(h, p).Some? ==> NextSibling(h, LastChild(h, p).value).None?)
    ensures !CanAppend(h, p, c) ==> e.heap == h
  {
    if p == c then Effect(Fail(SelfAppend), h)
    else if Parent(h, c).Some? then Effect(Fail(ChildHasParent), h)
    else if PrevSibling(h, c).Some? then Effect(Fail(ChildHasPrevSibling), h)
    else if NextSibling(h, c).Some? then Effect(Fail(ChildHasNextSibling), h)
    else
      var h1 := Rewrite(h, c, h[c.obj].base.(parent_node := Some(p)));
      match LastChild(h1, p)
      case None =>
        var h2 := Rewrite(h1, p, h1[p.obj].base.(first_child := Some(c)));
        Effect(Ok(()), Rewrite(h2, c, h2[c.obj].base.(prev_sibling := h2[p.obj].base.last_child)))
      case Some(last) =>
        if NextSibling(h1, last).Some? then Effect(Fail(LastChildHasNextSibling), h1)
        else
          var h2 := Rewrite(h1, last, h1[last.obj].base.(next_sibling := Some(c)));
          Effect(Ok(()), Rewrite(h2, c, h2[c.obj].base.(prev_sibling := h2[p.obj].base.last_child)))
  }

  /**
   * `append_child(p, c)` with the evidently intended `last_child = Some(c)` added after the
   * last write of the source; every abort is unchanged.
   */
  function AppendChildCorrectedEffect(h: Heap, p: AbstractNode, c: AbstractNode): (e: Effect)
    requires Wf(h) && ValidHandle(h, p) && ValidHandle(h, c)
    ensures |e.heap| == |h| && Wf(e.heap)
    ensures e.status == AppendChildEffect(h, p, c).status
    ensures e.status.Fail? ==> e == AppendChildEffect(h, p, c)
    ensures forall i :: 0 <= i < |h| ==> Unlinked(e.heap[i]) == Unlinked(h[i])
  {
    var w := AppendChildEffect(h, p, c);
    if w.status.Ok? then
      Effect(w.status, Rewrite(w.heap, p, w.heap[p.obj].base.(last_child := Some(c))))
    else w
  }

  /** The record of `m` after appending `c` to `p`, field by field. */
  ghost predicate RowRelinked(h: Heap, h': Heap, p: AbstractNode, c: AbstractNode, setsLast: bool, m: AbstractNode)
    requires Wf(h) && Wf(h') && |h'| == |h| && ValidHandle(h, p) && ValidHandle(h, m)
  {
    var last := LastChild(h, p);
    && Parent(h', m) == (if m == c then Some(p) else Parent(h, m))
    && FirstChild(h', m) == (if m == p && last.None? then Some(c) else FirstChild(h, m))
    && LastChild(h', m) == (if m == p && setsLast then Some(c) else LastChild(h, m))
    && NextSibling(h', m) == (if last == Some(m) then Some(c) else NextSibling(h, m))
    && PrevSibling(h', m) == (if m == c then last else PrevSibling(h, m))
  }

  /**
   * The links of `h'` are those of `h` after appending `c` to `p`: `c` gets `p` as parent and the
   * old last child as previous sibling; that old last child, or `p` when it had none, points on
   * to `c`; `p`'s last child becomes `c` only when `setsLast`; every other link is unchanged.
   */
  ghost predicate Relinked(h: Heap, h': Heap, p: AbstractNode, c: AbstractNode, setsLast: bool)
    requires Wf(h) && Wf(h') && |h'| == |h| && ValidHandle(h, p)
  {
    forall m :: ValidHandle(h, m) ==> RowRelinked(h, h', p, c, setsLast, m)
  }

  /**
   * The writes of the as-written `append_child(p, c)`: on completion the arena is relinked
   * without touching `p`'s last child; when the old last child already has a next sibling the
   * call aborts with only `c`'s parent written.
   */
  lemma AppendChildWrites(h: Heap, p: AbstractNode, c: AbstractNode)
    requires Wf(h) && ValidHandle(h, p) && ValidHandle(h, c)
    ensures var e := AppendChildEffect(h, p, c);
      && (e.status.Ok? ==> Relinked(h, e.heap, p, c, false))
      && (e.status.Ok? ==> LastChild(e.heap, p) == LastChild(h, p))
      && (e.status == Fail(LastChildHasNextSibling) ==>
            && Parent(e.heap, c) == Some(p)
            && (forall m :: ValidHandle(h, m) && m != c ==> e.heap[m.obj] == h[m.obj])
            && FirstChild(e.heap, c) == FirstChild(h, c) && LastChild(e.heap, c) == LastChild(h, c)
            && NextSibling(e.heap, c) == NextSibling(h, c) && PrevSibling(e.heap, c) == PrevSibling(h, c))
  {
    var e := AppendChildEffect(h, p, c);
    if CanAppend(h, p, c) {
      var last := LastChild(h, p);
      var h1 := Rewrite(h, c, h[c.obj].base.(parent_node := Some(p)));
      if e.status.Ok? {
        var h2 := if last.None? then Rewrite(h1, p, h1[p.obj].base.(first_child := Some(c)))
                  else Rewrite(h1, last.value, h1[last.value.obj].base.(next_sibling := Some(c)));
        assert h2[p.obj].base.last_child == last;
        var h3 := Rewrite(h2, c, h2[c.obj].base.(prev_sibling := last));
        assert e.heap == h3;
      }
    }
  }

  /** The writes of the corrected `append_child(p, c)`: the same, and `p`'s last child becomes `c`. */
  lemma AppendChildCorrectedWrites(h: Heap, p: AbstractNode, c: AbstractNode)
    requires Wf(h) && ValidHandle(h, p) && ValidHandle(h, c)
    ensures var e := AppendChildCorrectedEffect(h, p, c);
      e.status.Ok? ==> Relinked(h, e.heap, p, c, true) && LastChild(e.heap, p) == Some(c)
  {
    var e := AppendChildCorrectedEffect(h, p, c);
    if e.status.Ok? {
      AppendChildWrites(h, p, c);
    }
  }

  //
  // The document-tree invariant
  //

  /** The invariant of one node: sibling links are mutual, children point back at their parent,
      and the first and last child are the ends of the chain. */
  ghost predicate LocalTreeInv(h: Heap, n: AbstractNode)
    requires Wf(h) && ValidHandle(h, n)
  {
    && (FirstChild(h, n).None? <==> LastChild(h, n).None?)
    && (FirstChild(h, n).Some? ==>
          Parent(h, FirstChild(h, n).value) == Some(n) && PrevSibling(h, FirstChild(h, n).value).None?)
    && (LastChild(h, n).Some? ==>
          Parent(h, LastChild(h, n).value) == Some(n) && NextSibling(h, LastChild(h, n).value).None?)
    && (NextSibling(h, n).Some? ==>
          PrevSibling(h, NextSibling(h, n).value) == Some(n) && Parent(h, NextSibling(h, n).value) == Parent(h, n))
    && (PrevSibling(h, n).Some? ==> NextSibling(h, PrevSibling(h, n).value) == Some(n))
    && (Parent(h, n).None? ==> PrevSibling(h, n).None? && NextSibling(h, n).None?)
    && (Parent(h, n).Some? && PrevSibling(h, n).None? ==> FirstChild(h, Parent(h, n).value) == Some(n))
    && (Parent(h, n).Some? && NextSibling(h, n).None? ==> LastChild(h, Parent(h, n).value) == Some(n))
  }

  ghost predicate TreeInv(h: Heap)
  {
    Wf(h) && forall n {:trigger LocalTreeInv(h, n)} :: ValidHandle(h, n) ==> LocalTreeInv(h, n)
  }

  //
  // Ranks: finiteness of the child and sibling chains
  //

  /** Following `first_child` or `next_sibling` from `n` lowers the rank. */
  ghost predicate RankDrops(h: Heap, rank: seq<nat>, n: AbstractNode)
    requires Wf(h) && |rank| == |h| && ValidHandle(h, n)
  {
    (FirstChild(h, n).Some? ==> rank[FirstChild(h, n).value.obj] < rank[n.obj])
    && (NextSibling(h, n).Some? ==> rank[NextSibling(h, n).value.obj] < rank[n.obj])
  }

  /** `rank` witnesses that no child or sibling chain of `h` is cyclic. */
  ghost predicate Ranked(h: Heap, rank: seq<nat>)
  {
    Wf(h) && |rank| == |h| && forall n {:trigger RankDrops(h, rank, n)} :: ValidHandle(h, n) ==> RankDrops(h, rank, n)
  }

  function Measure(rank: seq<nat>, cur: Option<AbstractNode>): nat
  {
    if cur.Some? && cur.value.obj < |rank| then rank[cur.value.obj] + 1 else 0
  }

  /** The sibling chain that starts at `cur`. */
  ghost function Chain(h: Heap, rank: seq<nat>, cur: Option<AbstractNode>): seq<AbstractNode>
    requires Ranked(h, rank) && OptValid(h, cur)
    decreases Measure(rank, cur)
  {
    match cur
    case None => []
    case Some(k) =>
      assert RankDrops(h, rank, k);
      [k] + Chain(h, rank, NextSibling(h, k))
  }

  /** The children of `n`, in sibling order, as `each_child` meets them. */
  ghost function Children(h: Heap, rank: seq<nat>, n: AbstractNode): seq<AbstractNode>
    requires Ranked(h, rank) && ValidHandle(h, n)
  {
    Chain(h, rank, FirstChild(h, n))
  }

  /** The chain from a child `k` of `p` runs to `p`'s last child through children of `p`,
      with mutual sibling links between neighbours. */
  lemma {:induction false} ChainShape(h: Heap, rank: seq<nat>, p: AbstractNode, k: AbstractNode)
    requires TreeInv(h) && Ranked(h, rank) && ValidHandle(h, p) && ValidHandle(h, k)
    requires Parent(h, k) == Some(p)
    ensures var s := Chain(h, rank, Some(k));
      && |s| > 0 && s[0] == k && Some(s[|s| - 1]) == LastChild(h, p)
      && (forall i :: 0 <= i < |s| ==> ValidHandle(h, s[i]) && Parent(h, s[i]) == Some(p))
      && (forall i :: 0 <= i < |s| - 1 ==> NextSibling(h, s[i]) == Some(s[i + 1]) && PrevSibling(h, s[i + 1]) == Some(s[i]))
    decreases rank[k.obj]
  {
    assert LocalTreeInv(h, k) && RankDrops(h, rank, k);
    var next := NextSibling(h, k);
    if next.Some? {
      ChainShape(h, rank, p, next.value);
    }
  }

  /**
   * In a tree, a node is a leaf iff it has no children iff it has no last child, and otherwise
   * its children run from `first_child` to `last_child`, all pointing back at it, with
   * consistent forward and backward sibling links.
   */
  lemma ChildrenShape(h: Heap, rank: seq<nat>, n: AbstractNode)
    requires TreeInv(h) && Ranked(h, rank) && ValidHandle(h, n)
    ensures var s := Children(h, rank, n);
      && (IsLeaf(h, n) <==> s == [])
      && (IsLeaf(h, n) <==> LastChild(h, n).None?)
      && (s != [] ==> Some(s[0]) == FirstChild(h, n) && Some(s[|s| - 1]) == LastChild(h, n))
      && (forall i :: 0 <= i < |s| ==> ValidHandle(h, s[i]) && Parent(h, s[i]) == Some(n))
      && (forall i :: 0 <= i < |s| - 1 ==> NextSibling(h, s[i]) == Some(s[i + 1]) && PrevSibling(h, s[i + 1]) == Some(s[i]))
  {
    assert LocalTreeInv(h, n);
    if FirstChild(h, n).Some? {
      ChainShape(h, rank, n, FirstChild(h, n).value);
    }
  }

  /** A bound on every rank. */
  ghost function MaxRank(rank: seq<nat>): (r: nat)
    ensures forall i :: 0 <= i < |rank| ==> rank[i] <= r
  {
    if rank == [] then 0
    else
      var m := MaxRank(rank[1..]);
      assert forall i :: 1 <= i < |rank| ==> rank[i] == rank[1..][i - 1];
      if rank[0] < m then m else rank[0]
  }

  /** The chain from `cur` is closed under `next_sibling`. */
  lemma {:induction false} ChainClosed(h: Heap, rank: seq<nat>, cur: Option<AbstractNode>, m: AbstractNode)
    requires Ranked(h, rank) && OptValid(h, cur) && ValidHandle(h, m)
    requires m in Chain(h, rank, cur) && NextSibling(h, m).Some?
    ensures NextSibling(h, m).value in Chain(h, rank, cur)
    decreases Measure(rank, cur)
  {
    var k := cur.value;
    assert RankDrops(h, rank, k);
    if m != k {
      ChainClosed(h, rank, NextSibling(h, k), m);
    } else {
      var next := NextSibling(h, k);
      assert RankDrops(h, rank, next.value);
      assert Chain(h, rank, next) == [next.value] + Chain(h, rank, NextSibling(h, next.value));
    }
  }

  /** In a tree, a node is among the children of its parent: `parent` and `each_child` agree. */
  lemma {:induction false} ParentListsChild(h: Heap, rank: seq<nat>, n: AbstractNode)
    requires TreeInv(h) && Ranked(h, rank) && ValidHandle(h, n) && Parent(h, n).Some?
    ensures n in Children(h, rank, Parent(h, n).value)
    decreases MaxRank(rank) - rank[n.obj]
  {
    var p := Parent(h, n).value;
    assert LocalTreeInv(h, n) && RankDrops(h, rank, n);
    match PrevSibling(h, n)
    case None =>
      assert Children(h, rank, p) == [n] + Chain(h, rank, NextSibling(h, n));
    case Some(m) =>
      assert LocalTreeInv(h, m) && RankDrops(h, rank, m);
      ParentListsChild(h, rank, m);
      ChainClosed(h, rank, FirstChild(h, p), m);
  }

  /** Every constructor yields a record `append_child` accepts as its child. */
  lemma FreshNodeCanBeAppended(h: Heap, p: AbstractNode, c: AbstractNode)
    requires Wf(h) && ValidHandle(h, p) && ValidHandle(h, c) && p != c
    requires Detached(h[c.obj].base)
    ensures CanAppend(h, p, c)
    ensures AppendChildEffect(h, p, c).status.Fail? ==>
              AppendChildEffect(h, p, c).status == Fail(LastChildHasNextSibling)
  {
  }

  //
  // append_child against the invariant
  //

  /** In a tree, the late abort cannot happen: the last child of a node has no next sibling. */
  lemma TreeRulesOutLateAbort(h: Heap, p: AbstractNode, c: AbstractNode)
    requires TreeInv(h) && ValidHandle(h, p) && ValidHandle(h, c)
    ensures AppendChildEffect(h, p, c).status != Fail(LastChildHasNextSibling)
  {
    assert LocalTreeInv(h, p);
  }

  /** Relinking a detached `c` under `p`, last child included, keeps the invariant at `m`. */
  lemma RelinkKeepsLocal(h: Heap, h': Heap, p: AbstractNode, c: AbstractNode, m: AbstractNode)
    requires TreeInv(h) && Wf(h') && |h'| == |h| && ValidHandle(h, p) && ValidHandle(h, c) && ValidHandle(h, m)
    requires CanAppend(h, p, c) && Relinked(h, h', p, c, true)
    ensures LocalTreeInv(h', m)
  {
    if m == p {
      RelinkKeepsParentLocal(h, h', p, c, m);
    } else if m == c {
      RelinkKeepsChildLocal(h, h', p, c, m);
    } else if Some(m) == LastChild(h, p) {
      RelinkKeepsLastLocal(h, h', p, c, m);
    } else {
      RelinkKeepsOtherLocal(h, h', p, c, m);
    }
  }

  /** In a tree, the node `m`, the last child of `p` and the neighbours of `m` are locally consistent. */
  lemma NeighboursLocal(h: Heap, p: AbstractNode, m: AbstractNode)
    requires TreeInv(h) && ValidHandle(h, p) && ValidHandle(h, m)
    ensures LocalTreeInv(h, p) && LocalTreeInv(h, m)
    ensures LastChild(h, p).Some? ==> LocalTreeInv(h, LastChild(h, p).value)
    ensures Parent(h, m).Some? ==> LocalTreeInv(h, Parent(h, m).value)
    ensures FirstChild(h, m).Some? ==> LocalTreeInv(h, FirstChild(h, m).value)
    ensures LastChild(h, m).Some? ==> LocalTreeInv(h, LastChild(h, m).value)
    ensures NextSibling(h, m).Some? ==> LocalTreeInv(h, NextSibling(h, m).value)
    ensures PrevSibling(h, m).Some? ==> LocalTreeInv(h, PrevSibling(h, m).value)
  {
  }

  /** `RelinkKeepsLocal` at the parent. */
  lemma RelinkKeepsParentLocal(h: Heap, h': Heap, p: AbstractNode, c: AbstractNode, m: AbstractNode)
    requires TreeInv(h) && Wf(h') && |h'| == |h| && ValidHandle(h, p) && ValidHandle(h, c) && ValidHandle(h, m)
    requires CanAppend(h, p, c) && Relinked(h, h', p, c, true)
    requires m == p
    ensures LocalTreeInv(h', m)
  {
    NeighboursLocal(h, p, m);
  }

  /** `RelinkKeepsLocal` at the appended child. */
  lemma RelinkKeepsChildLocal(h: Heap, h': Heap, p: AbstractNode, c: AbstractNode, m: AbstractNode)
    requires TreeInv(h) && Wf(h') && |h'| == |h| && ValidHandle(h, p) && ValidHandle(h, c) && ValidHandle(h, m)
    requires CanAppend(h, p, c) && Relinked(h, h', p, c, true)
    requires m == c && m != p
    ensures LocalTreeInv(h', m)
  {
    NeighboursLocal(h, p, m);
  }

  /** `RelinkKeepsLocal` at the old last child of the parent. */
  lemma RelinkKeepsLastLocal(h: Heap, h': Heap, p: AbstractNode, c: AbstractNode, m: AbstractNode)
    requires TreeInv(h) && Wf(h') && |h'| == |h| && ValidHandle(h, p) && ValidHandle(h, c) && ValidHandle(h, m)
    requires CanAppend(h, p, c) && Relinked(h, h', p, c, true)
    requires Some(m) == LastChild(h, p) && m != p && m != c
    ensures LocalTreeInv(h', m)
  {
    NeighboursLocal(h, p, m);
  }

  /** `RelinkKeepsLocal` at any node other than the parent, the child and the old last child. */
  lemma RelinkKeepsOtherLocal(h: Heap, h': Heap, p: AbstractNode, c: AbstractNode, m: AbstractNode)
    requires TreeInv(h) && Wf(h') && |h'| == |h| && ValidHandle(h, p) && ValidHandle(h, c) && ValidHandle(h, m)
    requires CanAppend(h, p, c) && Relinked(h, h', p, c, true)
    requires Some(m) != LastChild(h, p) && m != p && m != c
    ensures LocalTreeInv(h', m)
  {
    NeighboursLocal(h, p, m);
  }

  /** The corrected `append_child` preserves the document-tree invariant. */
  lemma CorrectedAppendKeepsTree(h: Heap, p: AbstractNode, c: AbstractNode)
    requires TreeInv(h) && ValidHandle(h, p) && ValidHandle(h, c)
    requires AppendChildCorrectedEffect(h, p, c).status.Ok?
    ensures TreeInv(AppendChildCorrectedEffect(h, p, c).heap)
  {
    var h' := AppendChildCorrectedEffect(h, p, c).heap;
    AppendChildCorrectedWrites(h, p, c);
    forall m | ValidHandle(h', m) ensures LocalTreeInv(h', m) {
      RelinkKeepsLocal(h, h', p, c, m);
    }
  }

  /** Relinking under `p` extends the chain through the children of `p` by `c`. */
  lemma {:induction false} RelinkExtendsChain(h: Heap, rank: seq<nat>, h': Heap, rank': seq<nat>,
                                              p: AbstractNode, c: AbstractNode, k: AbstractNode)
    requires TreeInv(h) && Ranked(h, rank) && Ranked(h', rank') && |h'| == |h|
    requires ValidHandle(h, p) && ValidHandle(h, c) && ValidHandle(h, k)
    requires CanAppend(h, p, c) && Relinked(h, h', p, c, true)
    requires Parent(h, k) == Some(p)
    ensures Chain(h', rank', Some(k)) == Chain(h, rank, Some(k)) + [c]
    decreases rank[k.obj]
  {
    assert LocalTreeInv(h, k) && LocalTreeInv(h, p) && RankDrops(h, rank, k);
    assert Chain(h', rank', Some(c)) == [c];
    var next := NextSibling(h, k);
    if next.Some? {
      RelinkExtendsChain(h, rank, h', rank', p, c, next.value);
    }
  }

  /**
   * After the corrected `append_child(p, c)`, the children of `p` are its old children followed
   * by `c` (for any rank of the new arena: the source does not rule out an append that closes
   * a cycle, and then the new arena has none).
   */
  lemma CorrectedAppendExtendsChildren(h: Heap, rank: seq<nat>, p: AbstractNode, c: AbstractNode, rank': seq<nat>)
    requires TreeInv(h) && Ranked(h, rank) && ValidHandle(h, p) && ValidHandle(h, c)
    requires AppendChildCorrectedEffect(h, p, c).status.Ok?
    requires Ranked(AppendChildCorrectedEffect(h, p, c).heap, rank')
    ensures Children(AppendChildCorrectedEffect(h, p, c).heap, rank', p) == Children(h, rank, p) + [c]
  {
    var h' := AppendChildCorrectedEffect(h, p, c).heap;
    AppendChildCorrectedWrites(h, p, c);
    assert LocalTreeInv(h, p) && LocalTreeInv(h, c);
    if LastChild(h, p).None? {
      assert Chain(h', rank', Some(c)) == [c];
    } else {
      RelinkExtendsChain(h, rank, h', rank', p, c, FirstChild(h, p).value);
    }
  }

  /** The rank witness after appending the leaf `c`: one more everywhere, and 0 at `c`. */
  function AppendRank(rank: seq<nat>, c: AbstractNode): (r: seq<nat>)
    ensures |r| == |rank|
    ensures forall i :: 0 <= i < |rank| && i != c.obj ==> r[i] == rank[i] + 1
    ensures c.obj < |rank| ==> r[c.obj] == 0
  {
    seq(|rank|, i requires 0 <= i < |rank| => if i == c.obj then 0 else rank[i] + 1)
  }

  /**
   * Appending a detached leaf to a node of a tree keeps the child and sibling chains finite:
   * nothing in the tree points at `c`, so `c` can take the lowest rank.
   */
  lemma CorrectedAppendKeepsRank(h: Heap, rank: seq<nat>, p: AbstractNode, c: AbstractNode)
    requires TreeInv(h) && Ranked(h, rank) && ValidHandle(h, p) && ValidHandle(h, c) && IsLeaf(h, c)
    requires AppendChildCorrectedEffect(h, p, c).status.Ok?
    ensures Ranked(AppendChildCorrectedEffect(h, p, c).heap, AppendRank(rank, c))
  {
    var h' := AppendChildCorrectedEffect(h, p, c).heap;
    var r' := AppendRank(rank, c);
    AppendChildCorrectedWrites(h, p, c);
    assert LocalTreeInv(h, c) && LocalTreeInv(h, p);
    forall m | ValidHandle(h', m) ensures RankDrops(h', r', m) {
      assert RowRelinked(h, h', p, c, true, m);
      assert RankDrops(h, rank, m) && LocalTreeInv(h, m);
    }
  }

  /**
   * Appending a detached leaf with the corrected `append_child` keeps a tree traversable: the
   * result is a tree with a rank witness, and the children of `p` grow by `c` at the end.
   */
  lemma CorrectedAppendLeaf(h: Heap, rank: seq<nat>, p: AbstractNode, c: AbstractNode)
    requires TreeInv(h) && Ranked(h, rank) && ValidHandle(h, p) && ValidHandle(h, c) && IsLeaf(h, c)
    requires AppendChildCorrectedEffect(h, p, c).status.Ok?
    ensures var h' := AppendChildCorrectedEffect(h, p, c).heap;
      && TreeInv(h') && Ranked(h', AppendRank(rank, c))
      && Children(h', AppendRank(rank, c), p) == Children(h, rank, p) + [c]
  {
    CorrectedAppendKeepsTree(h, p, c);
    CorrectedAppendKeepsRank(h, rank, p, c);
    CorrectedAppendExtendsChildren(h, rank, p, c, AppendRank(rank, c));
  }

  /** The corrected `append_child(p, c)` leaves every other detached record detached. */
  lemma CorrectedAppendKeepsOthersDetached(h: Heap, p: AbstractNode, c: AbstractNode, d: AbstractNode)
    requires TreeInv(h) && ValidHandle(h, p) && ValidHandle(h, c) && ValidHandle(h, d)
    requires d != p && d != c && Detached(h[d.obj].base)
    requires AppendChildCorrectedEffect(h, p, c).status.Ok?
    ensures Detached(AppendChildCorrectedEffect(h, p, c).heap[d.obj].base)
  {
    var h' := AppendChildCorrectedEffect(h, p, c).heap;
    AppendChildCorrectedWrites(h, p, c);
    assert RowRelinked(h, h', p, c, true, d);
    assert LocalTreeInv(h, p);
  }

  /** `append_child(p, c)`, corrected, for each `c` of `cs` in turn, stopping at the first abort. */
  function AppendAll(h: Heap, p: AbstractNode, cs: seq<AbstractNode>): (e: Effect)
    requires Wf(h) && ValidHandle(h, p) && forall i :: 0 <= i < |cs| ==> ValidHandle(h, cs[i])
    ensures |e.heap| == |h| && Wf(e.heap)
    ensures cs == [] ==> e == Effect(Ok(()), h)
    decreases |cs|
  {
    if cs == [] then Effect(Ok(()), h)
    else
      var e := AppendChildCorrectedEffect(h, p, cs[0]);
      var rest := cs[1..];
      assert |e.heap| == |h|;
      assert forall i :: 0 <= i < |rest| ==> rest[i] == cs[i + 1];
      assert forall i :: 0 <= i < |rest| ==> ValidHandle(h, rest[i]);
      if e.status.Fail? then e else AppendAll(e.heap, p, rest)
  }

  /** The rank witness after appending the leaves `cs` in turn. */
  function AppendAllRank(rank: seq<nat>, cs: seq<AbstractNode>): (r: seq<nat>)
    ensures |r| == |rank|
    decreases |cs|
  {
    if cs == [] then rank else AppendAllRank(AppendRank(rank, cs[0]), cs[1..])
  }

  /** `cs` are distinct detached records of `h` other than `p`. */
  ghost predicate Appendable(h: Heap, p: AbstractNode, cs: seq<AbstractNode>)
  {
    && (forall i :: 0 <= i < |cs| ==> ValidHandle(h, cs[i]) && cs[i] != p && Detached(h[cs[i].obj].base))
    && (forall i, j :: 0 <= i < j < |cs| ==> cs[i] != cs[j])
  }

  /**
   * Appending distinct detached records `cs` to `p` of a tree, one after another, with the
   * corrected `append_child`: every call completes, the result is a tree with a rank witness,
   * and the children of `p`, as `each_child` meets them, are its old children followed by `cs`
   * in the order they were appended.
   */
  lemma {:induction false} AppendAllExtendsChildren(h: Heap, rank: seq<nat>, p: AbstractNode, cs: seq<AbstractNode>)
    requires TreeInv(h) && Ranked(h, rank) && ValidHandle(h, p) && Appendable(h, p, cs)
    ensures var e := AppendAll(h, p, cs);
      && e.status.Ok? && TreeInv(e.heap) && Ranked(e.heap, AppendAllRank(rank, cs))
      && Children(e.heap, AppendAllRank(rank, cs), p) == Children(h, rank, p) + cs
    decreases |cs|
  {
    if cs == [] {
      assert Children(h, rank, p) + cs == Children(h, rank, p);
    } else {
      var c, rest := cs[0], cs[1..];
      var h1 := AppendFirstOf(h, rank, p, cs);
      var r1 := AppendRank(rank, c);
      AppendAllExtendsChildren(h1, r1, p, rest);
      var e, r := AppendAll(h1, p, rest), AppendAllRank(r1, rest);
      assert Children(e.heap, r, p) == (Children(h, rank, p) + [c]) + rest;
      AppendStepConcat(Children(h, rank, p), cs);
    }
  }

  /** Appending the head of `cs` and then its tail is appending `cs`. */
  lemma AppendStepConcat(xs: seq<AbstractNode>, cs: seq<AbstractNode>)
    requires cs != []
    ensures (xs + [cs[0]]) + cs[1..] == xs + cs
  {
    assert cs == [cs[0]] + cs[1..];
  }

  /**
   * The first step of `AppendAllExtendsChildren`: appending `cs[0]` completes, keeps a tree with
   * a rank witness, adds `cs[0]` to the children, and leaves the rest appendable.
   */
  lemma AppendFirstOf(h: Heap, rank: seq<nat>, p: AbstractNode, cs: seq<AbstractNode>) returns (h1: Heap)
    requires TreeInv(h) && Ranked(h, rank) && ValidHandle(h, p) && cs != [] && Appendable(h, p, cs)
    ensures var e := AppendChildCorrectedEffect(h, p, cs[0]);
      && e.status.Ok? && h1 == e.heap
      && TreeInv(h1) && Ranked(h1, AppendRank(rank, cs[0])) && ValidHandle(h1, p)
      && Children(h1, AppendRank(rank, cs[0]), p) == Children(h, rank, p) + [cs[0]]
      && Appendable(h1, p, cs[1..])
      && AppendAll(h, p, cs) == AppendAll(h1, p, cs[1..])
      && AppendAllRank(rank, cs) == AppendAllRank(AppendRank(rank, cs[0]), cs[1..])
  {
    var c := cs[0];
    FreshNodeCanBeAppended(h, p, c);
    TreeRulesOutLateAbort(h, p, c);
    h1 := AppendChildCorrectedEffect(h, p, c).heap;
    CorrectedAppendLeaf(h, rank, p, c);
    var rest := cs[1..];
    forall i | 0 <= i < |rest|
      ensures ValidHandle(h1, rest[i]) && rest[i] != p && Detached(h1[rest[i].obj].base)
    {
      assert rest[i] == cs[i + 1] && cs[0] != cs[i + 1];
      CorrectedAppendKeepsOthersDetached(h, p, c, rest[i]);
    }
    forall i, j | 0 <= i < j < |rest| ensures rest[i] != rest[j] {
      assert rest[i] == cs[i + 1] && rest[j] == cs[j + 1];
    }
  }

  /** Under a rank witness, a first child ranks below its parent. */
  lemma RankedChildLower(h: Heap, rank: seq<nat>, n: AbstractNode)
    requires Ranked(h, rank) && ValidHandle(h, n) && FirstChild(h, n).Some?
    ensures rank[FirstChild(h, n).value.obj] < rank[n.obj]
  {
    assert RankDrops(h, rank, n);
  }

  /** Two nodes that are each other's first child admit no rank witness. */
  lemma MutualFirstChildrenUnranked(h: Heap, rank: seq<nat>, a: AbstractNode, b: AbstractNode)
    requires Wf(h) && ValidHandle(h, a) && ValidHandle(h, b)
    requires FirstChild(h, a) == Some(b) && FirstChild(h, b) == Some(a)
    ensures !Ranked(h, rank)
  {
    if Ranked(h, rank) {
      RankedChildLower(h, rank, a);
      RankedChildLower(h, rank, b);
    }
  }

  /**
   * As written, the guards of `append_child` do not stop an append that closes a cycle: with two
   * fresh elements, `append_child(a, b)` and then `append_child(b, a)` both complete, with or
   * without the `last_child` write, and leave `a` and `b` each other's first child, so no rank
   * witness exists and a traversal from either never ends. The corrected arena is even a tree
   * in the local sense.
   */
  lemma AppendChildCycleExample()
    ensures var h0 := [NewElement(OtherElementTypeId(0), "div"), NewElement(OtherElementTypeId(0), "div")];
      var a, b := AbstractNode(0), AbstractNode(1);
      && Wf(h0)
      && var e1 := AppendChildEffect(h0, a, b);
      && e1.status.Ok?
      && var e2 := AppendChildEffect(e1.heap, b, a);
      && e2.status.Ok?
      && FirstChild(e2.heap, a) == Some(b) && FirstChild(e2.heap, b) == Some(a)
      && (forall rank :: !Ranked(e2.heap, rank))
      && var c1 := AppendChildCorrectedEffect(h0, a, b);
      && c1.status.Ok?
      && var c2 := AppendChildCorrectedEffect(c1.heap, b, a);
      && c2.status.Ok? && TreeInv(c2.heap)
      && (forall rank :: !Ranked(c2.heap, rank))
  {
    var h0 := [NewElement(OtherElementTypeId(0), "div"), NewElement(OtherElementTypeId(0), "div")];
    var a, b := AbstractNode(0), AbstractNode(1);
    assert Wf(h0);
    AppendChildWrites(h0, a, b);
    var h1 := AppendChildEffect(h0, a, b).heap;
    AppendChildWrites(h1, b, a);
    var h2 := AppendChildEffect(h1, b, a).heap;
    forall rank ensures !Ranked(h2, rank) {
      MutualFirstChildrenUnranked(h2, rank, a, b);
    }
    AppendChildCorrectedWrites(h0, a, b);
    var g1 := AppendChildCorrectedEffect(h0, a, b).heap;
    AppendChildCorrectedWrites(g1, b, a);
    var g2 := AppendChildCorrectedEffect(g1, b, a).heap;
    forall n | ValidHandle(g2, n) ensures LocalTreeInv(g2, n) {
      assert n.obj == 0 || n.obj == 1;
    }
    forall rank ensures !Ranked(g2, rank) {
      MutualFirstChildrenUnranked(g2, rank, a, b);
    }
  }

  /**
   * As written, appending to a leaf of a tree completes but leaves a first child without a last
   * child, so the result is no longer a tree.
   */
  lemma AppendChildBreaksTree(h: Heap, p: AbstractNode, c: AbstractNode)
    requires TreeInv(h) && ValidHandle(h, p) && ValidHandle(h, c)
    requires IsLeaf(h, p) && CanAppend(h, p, c)
    ensures AppendChildEffect(h, p, c).status.Ok?
    ensures FirstChild(AppendChildEffect(h, p, c).heap, p) == Some(c)
    ensures LastChild(AppendChildEffect(h, p, c).heap, p).None?
    ensures !TreeInv(AppendChildEffect(h, p, c).heap)
  {
    var h' := AppendChildEffect(h, p, c).heap;
    assert LocalTreeInv(h, p);
    AppendChildWrites(h, p, c);
    assert !LocalTreeInv(h', p);
  }

  /**
   * As written, a second append to a leaf replaces its first child: the earlier child keeps `p`
   * as its parent, but `p`'s sibling chain holds only the later one.
   */
  lemma AppendChildOrphansEarlierChild(h: Heap, p: AbstractNode, c1: AbstractNode, c2: AbstractNode)
    requires TreeInv(h) && ValidHandle(h, p) && ValidHandle(h, c1) && ValidHandle(h, c2)
    requires IsLeaf(h, p) && c1 != c2 && CanAppend(h, p, c1) && CanAppend(h, p, c2)
    ensures var h1 := AppendChildEffect(h, p, c1).heap;
      && AppendChildEffect(h1, p, c2).status.Ok?
      && var h2 := AppendChildEffect(h1, p, c2).heap;
      && Parent(h2, c1) == Some(p)
      && FirstChild(h2, p) == Some(c2) && NextSibling(h2, c2).None?
  {
    assert LocalTreeInv(h, p);
    AppendChildWrites(h, p, c1);
    var h1 := AppendChildEffect(h, p, c1).heap;
    AppendChildWrites(h1, p, c2);
  }

  /** A list element and two items, appended as written: only the second item remains a child. */
  lemma AppendChildTwiceExample()
    ensures var h0 := [NewElement(OtherElementTypeId(0), "ul"), NewElement(OtherElementTypeId(1), "li"),
                       NewElement(OtherElementTypeId(1), "li")];
      var ul, li1, li2 := AbstractNode(0), AbstractNode(1), AbstractNode(2);
      && Wf(h0)
      && var h1 := AppendChildEffect(h0, ul, li1).heap;
      && var h2 := AppendChildEffect(h1, ul, li2).heap;
      && Ranked(h2, [1, 0, 0])
      && Children(h2, [1, 0, 0], ul) == [li2]
      && Parent(h2, li1) == Some(ul)
  {
    var h0 := [NewElement(OtherElementTypeId(0), "ul"), NewElement(OtherElementTypeId(1), "li"),
               NewElement(OtherElementTypeId(1), "li")];
    var ul, li1, li2 := AbstractNode(0), AbstractNode(1), AbstractNode(2);
    assert Wf(h0);
    assert TreeInv(h0) by {
      forall n | ValidHandle(h0, n) ensures LocalTreeInv(h0, n) {
        assert n.obj == 0 || n.obj == 1 || n.obj == 2;
      }
    }
    AppendChildOrphansEarlierChild(h0, ul, li1, li2);
    AppendChildWrites(h0, ul, li1);
    var h1 := AppendChildEffect(h0, ul, li1).heap;
    AppendChildWrites(h1, ul, li2);
    var h2 := AppendChildEffect(h1, ul, li2).heap;
    assert Ranked(h2, [1, 0, 0]) by {
      forall n | ValidHandle(h2, n) ensures RankDrops(h2, [1, 0, 0], n) {
        assert n.obj == 0 || n.obj == 1 || n.obj == 2;
      }
    }
    assert Chain(h2, [1, 0, 0], Some(li2)) == [li2];
  }

  //
  // The arena as a mutable object
  //

  /** The node heap: allocations are added by `Alloc` and relinked in place by `append_child`. */
  class Arena {
    var nodes: Heap

    ghost predicate Valid()
      reads this
    {
      Wf(nodes)
    }

    constructor ()
      ensures Valid() && nodes == []
    {
      nodes := [];
    }

    /** Hands a freshly constructed structure to the arena and returns its handle. */
    method Alloc(v: Variant) returns (n: AbstractNode)
      requires Valid() && CastSafe(v) && Detached(v.base)
      modifies this
      ensures Valid() && nodes == old(nodes) + [v] && n == AbstractNode(|old(nodes)|)
    {
      n := AbstractNode(|nodes|);
      nodes := nodes + [v];
    }

    /** `append_child(p, c)`, writing the link fields in the source's order. */
    method AppendChild(p: AbstractNode, c: AbstractNode) returns (status: Outcome<()>)
      requires Valid() && ValidHandle(nodes, p) && ValidHandle(nodes, c)
      modifies this
      ensures Valid()
      ensures Effect(status, nodes) == AppendChildEffect(old(nodes), p, c)
    {
      if p == c { return Fail(SelfAppend); }
      if nodes[c.obj].base.parent_node.Some? { return Fail(ChildHasParent); }
      if nodes[c.obj].base.prev_sibling.Some? { return Fail(ChildHasPrevSibling); }
      if nodes[c.obj].base.next_sibling.Some? { return Fail(ChildHasNextSibling); }

      nodes := nodes[c.obj := nodes[c.obj].(base := nodes[c.obj].base.(parent_node := Some(p)))];

      match nodes[p.obj].base.last_child {
        case None =>
          nodes := nodes[p.obj := nodes[p.obj].(base := nodes[p.obj].base.(first_child := Some(c)))];
        case Some(last) =>
          if nodes[last.obj].base.next_sibling.Some? { return Fail(LastChildHasNextSibling); }
          nodes := nodes[last.obj := nodes[last.obj].(base := nodes[last.obj].base.(next_sibling := Some(c)))];
      }

      nodes := nodes[c.obj := nodes[c.obj].(base := nodes[c.obj].base.(prev_sibling := nodes[p.obj].base.last_child))];
      status := Ok(());
    }

    /** `append_child(p, c)` with the missing `last_child` write added at the end. */
    method AppendChildCorrected(p: AbstractNode, c: AbstractNode) returns (status: Outcome<()>)
      requires Valid() && ValidHandle(nodes, p) && ValidHandle(nodes, c)
      modifies this
      ensures Valid()
      ensures Effect(status, nodes) == AppendChildCorrectedEffect(old(nodes), p, c)
      ensures TreeInv(old(nodes)) ==> TreeInv(nodes)
    {
      status := AppendChild(p, c);
      if status.Ok? {
        nodes := Rewrite(nodes, p, nodes[p.obj].base.(last_child := Some(c)));
        if TreeInv(old(nodes)) {
          CorrectedAppendKeepsTree(old(nodes), p, c);
        }
      } else if TreeInv(old(nodes)) {
        TreeRulesOutLateAbort(old(nodes), p, c);
      }
    }
  }
}
