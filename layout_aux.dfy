/**
 * The layout auxiliary-data lifecycle of src/servo/layout/aux.rs: a node gets an empty
 * `LayoutData` record the first time layout touches it, and every record created while walking
 * a subtree is registered in the roots list of the layout task.
 */
module LayoutAux {
  import opened Wrappers
  import opened DomNode
  import opened DomTree
  import opened DomTraversal

  /** The `DVec<@LayoutData>` the created records are pushed onto; it only grows. */
  class RootList {
    var items: seq<LayoutData>

    constructor ()
      ensures items == []
    {
      items := [];
    }

    method Push(r: LayoutData)
      modifies this
      ensures items == old(items) + [r]
    {
      items := items + [r];
    }
  }

  /** A record with its layout slot emptied: all that layout must not change. */
  function Bare(v: Variant): Variant
  {
    v.(base := v.base.(layout_data := None))
  }

  /** `h'` differs from `h` in layout slots at most: same allocations, links, tags and payloads. */
  ghost predicate SameTree(h: Heap, h': Heap)
  {
    |h'| == |h| && forall i :: 0 <= i < |h| ==> Bare(h'[i]) == Bare(h[i])
  }

  /**
   * `initialize_layout_data(n)`: when `n` already has layout data, nothing changes and the result
   * is `None`; otherwise a new record with `style` and `flow` absent is attached to `n` and returned.
   */
  method InitializeLayoutData(arena: Arena, n: AbstractNode) returns (r: Option<LayoutData>)
    requires arena.Valid() && ValidHandle(arena.nodes, n)
    modifies arena
    ensures arena.Valid() && SameTree(old(arena.nodes), arena.nodes)
    ensures LayoutDataOf(arena.nodes, n).Some?
    ensures old(LayoutDataOf(arena.nodes, n)).Some? ==> r.None? && arena.nodes == old(arena.nodes)
    ensures old(LayoutDataOf(arena.nodes, n)).None? ==>
              && r.Some? && fresh(r.value) && r.value.style.None? && r.value.flow.None?
              && LayoutDataOf(arena.nodes, n) == r
              && forall i :: 0 <= i < |arena.nodes| && i != n.obj ==> arena.nodes[i] == old(arena.nodes)[i]
  {
    match arena.nodes[n.obj].base.layout_data {
      case Some(_) =>
        r := None;
      case None =>
        var data := new LayoutData();
        r := Some(data);
        ghost var h := arena.nodes;
        arena.nodes := arena.nodes[n.obj := arena.nodes[n.obj].(base := arena.nodes[n.obj].base.(layout_data := r))];
        assert forall i :: 0 <= i < |h| ==> arena.nodes[i].base.type_id == h[i].base.type_id;
        assert forall i :: 0 <= i < |h| ==> Bare(arena.nodes[i]) == Bare(h[i]);
    }
  }

  /**
   * The visitor of `initialize_style_for_subtree` applied to `n`: `initialize_layout_data(n)`,
   * and a push of the record it returns. Exactly a node without layout data adds one record.
   */
  method InitializeNodeForStyle(arena: Arena, n: AbstractNode, refs: RootList)
    requires arena.Valid() && ValidHandle(arena.nodes, n)
    modifies arena, refs
    ensures arena.Valid() && SameTree(old(arena.nodes), arena.nodes)
    ensures LayoutDataOf(arena.nodes, n).Some?
    ensures old(LayoutDataOf(arena.nodes, n)).Some? ==> arena.nodes == old(arena.nodes) && refs.items == old(refs.items)
    ensures old(LayoutDataOf(arena.nodes, n)).None? ==>
              && refs.items == old(refs.items) + [LayoutDataOf(arena.nodes, n).value]
              && fresh(LayoutDataOf(arena.nodes, n).value)
              && LayoutDataOf(arena.nodes, n).value.style.None? && LayoutDataOf(arena.nodes, n).value.flow.None?
              && forall i :: 0 <= i < |arena.nodes| && i != n.obj ==> arena.nodes[i] == old(arena.nodes)[i]
  {
    var r := InitializeLayoutData(arena, n);
    match r {
      case Some(data) => refs.Push(data);
      case None =>
    }
  }

  /**
   * The nodes of `s` that have no layout data in `h`, each once, in the order of their first
   * occurrence: the nodes a walk along `s` attaches a new record to.
   */
  ghost function Newcomers(h: Heap, s: seq<AbstractNode>): (r: seq<AbstractNode>)
    requires forall i :: 0 <= i < |s| ==> ValidHandle(h, s[i])
    ensures forall i :: 0 <= i < |r| ==> ValidHandle(h, r[i])
  {
    if s == [] then []
    else
      var init := s[..|s| - 1];
      var k := s[|s| - 1];
      if LayoutDataOf(h, k).None? && k !in init then Newcomers(h, init) + [k] else Newcomers(h, init)
  }

  /** Walking one node further adds it to the newcomers iff it is bare and not met before. */
  lemma NewcomersSnoc(h: Heap, s: seq<AbstractNode>, k: AbstractNode)
    requires forall i :: 0 <= i < |s| ==> ValidHandle(h, s[i])
    requires ValidHandle(h, k)
    ensures Newcomers(h, s + [k]) ==
              if LayoutDataOf(h, k).None? && k !in s then Newcomers(h, s) + [k] else Newcomers(h, s)
  {
    assert (s + [k])[..|s|] == s;
  }

  /** The newcomers are exactly the bare nodes of `s`, without repetition. */
  lemma {:induction false} NewcomersExact(h: Heap, s: seq<AbstractNode>)
    requires forall i :: 0 <= i < |s| ==> ValidHandle(h, s[i])
    ensures forall k :: k in Newcomers(h, s) <==> k in s && LayoutDataOf(h, k).None?
    ensures forall i, j :: 0 <= i < j < |Newcomers(h, s)| ==> Newcomers(h, s)[i] != Newcomers(h, s)[j]
  {
    if s != [] {
      var init := s[..|s| - 1];
      assert forall i :: 0 <= i < |init| ==> init[i] == s[i];
      NewcomersExact(h, init);
      assert s == init + [s[|s| - 1]];
    }
  }

  /** The links and tags of `h'` are those of `h`. */
  lemma SameLinks(h: Heap, h': Heap)
    requires Wf(h) && Wf(h') && SameTree(h, h')
    ensures forall m :: ValidHandle(h, m) ==>
              && FirstChild(h', m) == FirstChild(h, m) && NextSibling(h', m) == NextSibling(h, m)
              && Parent(h', m) == Parent(h, m) && PrevSibling(h', m) == PrevSibling(h, m)
              && LastChild(h', m) == LastChild(h, m) && TypeId(h', m) == TypeId(h, m)
  {
    forall m | ValidHandle(h, m)
      ensures FirstChild(h', m) == FirstChild(h, m) && NextSibling(h', m) == NextSibling(h, m)
      ensures Parent(h', m) == Parent(h, m) && PrevSibling(h', m) == PrevSibling(h, m)
      ensures LastChild(h', m) == LastChild(h, m) && TypeId(h', m) == TypeId(h, m)
    {
      assert Bare(h'[m.obj]) == Bare(h[m.obj]);
    }
  }

  /** Writes to layout slots only leave the rank witness and the pre-order of every subtree in place. */
  lemma PreorderSurvivesLayout(h: Heap, h': Heap, rank: seq<nat>, n: AbstractNode)
    requires Ranked(h, rank) && Wf(h') && SameTree(h, h') && ValidHandle(h, n)
    ensures Ranked(h', rank)
    ensures Preorder(h', rank, n) == Preorder(h, rank, n)
  {
    SameLinks(h, h');
    forall m | ValidHandle(h', m) ensures RankDrops(h', rank, m) {
      assert RankDrops(h, rank, m);
    }
    PreorderSurvives(h, h', rank, n);
  }

  lemma {:induction false} PreorderSurvives(h: Heap, h': Heap, rank: seq<nat>, n: AbstractNode)
    requires Ranked(h, rank) && Ranked(h', rank) && |h'| == |h| && ValidHandle(h, n)
    requires forall m :: ValidHandle(h, m) ==> FirstChild(h', m) == FirstChild(h, m) && NextSibling(h', m) == NextSibling(h, m)
    ensures Preorder(h', rank, n) == Preorder(h, rank, n)
    decreases rank[n.obj] + 1, 0
  {
    assert RankDrops(h, rank, n);
    PreorderChainSurvives(h, h', rank, FirstChild(h, n));
  }

  lemma {:induction false} PreorderChainSurvives(h: Heap, h': Heap, rank: seq<nat>, cur: Option<AbstractNode>)
    requires Ranked(h, rank) && Ranked(h', rank) && |h'| == |h| && OptValid(h, cur)
    requires forall m :: ValidHandle(h, m) ==> FirstChild(h', m) == FirstChild(h, m) && NextSibling(h', m) == NextSibling(h, m)
    ensures PreorderChain(h', rank, cur) == PreorderChain(h, rank, cur)
    decreases Measure(rank, cur), 1
  {
    if cur.Some? {
      var k := cur.value;
      assert RankDrops(h, rank, k);
      PreorderSurvives(h, h', rank, k);
      PreorderChainSurvives(h, h', rank, NextSibling(h, k));
    }
  }

  /**
   * After walking `s` from the arena `h0` to `h`: only layout slots changed, every node of `s`
   * has layout data, records already attached in `h0` are kept, and nodes off `s` are untouched.
   */
  ghost predicate Touched(h0: Heap, h: Heap, s: seq<AbstractNode>)
    requires forall i :: 0 <= i < |s| ==> ValidHandle(h0, s[i])
    requires |h| == |h0|
  {
    && SameTree(h0, h)
    && (forall j :: 0 <= j < |s| ==> ValidHandle(h, s[j]) && LayoutDataOf(h, s[j]).Some?)
    && (forall m :: ValidHandle(h0, m) && LayoutDataOf(h0, m).Some? ==> LayoutDataOf(h, m) == LayoutDataOf(h0, m))
    && (forall m :: ValidHandle(h0, m) && m !in s ==> h[m.obj] == h0[m.obj])
  }

  /** `items` is `base` followed by the records now attached to the newcomers of `s`, in order. */
  ghost predicate Registered(h0: Heap, h: Heap, s: seq<AbstractNode>, base: seq<LayoutData>, items: seq<LayoutData>)
    requires forall i :: 0 <= i < |s| ==> ValidHandle(h0, s[i])
    requires |h| == |h0|
  {
    var news := Newcomers(h0, s);
    && |items| == |base| + |news|
    && items[..|base|] == base
    && forall j :: 0 <= j < |news| ==> LayoutDataOf(h, news[j]) == Some(items[|base| + j])
  }

  /** One visit of the walk keeps both facts, for the walk extended by the visited node. */
  lemma VisitKeeps(h0: Heap, h: Heap, h': Heap, s: seq<AbstractNode>, n: AbstractNode,
                   base: seq<LayoutData>, items: seq<LayoutData>, items': seq<LayoutData>)
    requires forall i :: 0 <= i < |s| ==> ValidHandle(h0, s[i])
    requires ValidHandle(h0, n)
    requires |h| == |h0| && Touched(h0, h, s) && Registered(h0, h, s, base, items)
    requires SameTree(h, h') && LayoutDataOf(h', n).Some?
    requires LayoutDataOf(h, n).Some? ==> h' == h && items' == items
    requires LayoutDataOf(h, n).None? ==>
               && items' == items + [LayoutDataOf(h', n).value]
               && forall i :: 0 <= i < |h'| && i != n.obj ==> h'[i] == h[i]
    ensures Touched(h0, h', s + [n]) && Registered(h0, h', s + [n], base, items')
  {
    NewcomersSnoc(h0, s, n);
    NewcomersExact(h0, s);
    var news := Newcomers(h0, s);
    if LayoutDataOf(h, n).None? {
      assert n !in s;
      assert LayoutDataOf(h0, n).None?;
      assert forall j :: 0 <= j < |news| ==> news[j] != n;
    }
  }

  /**
   * The nodes the walk of `initialize_style_for_subtree` visits, in order. Its visitor writes
   * layout slots only and never stops the walk, so `traverse_preorder` meets the whole pre-order
   * of the subtree as it was before the first write.
   */
  function VisitOrder(h: Heap, ghost rank: seq<nat>, root: AbstractNode): (order: seq<AbstractNode>)
    requires Ranked(h, rank) && ValidHandle(h, root)
    ensures order == Preorder(h, rank, root)
  {
    FullWalks(h, rank, root, (k: AbstractNode) => true);
    TraversePreorder(h, rank, root, (k: AbstractNode) => true).visited
  }

  /** The prefix of `s` one longer than `s[..i]` ends in `s[i]`. */
  lemma PrefixGrows(s: seq<AbstractNode>, i: nat)
    requires i < |s|
    ensures s[..i + 1] == s[..i] + [s[i]]
  {
    assert s[..i + 1][..i] == s[..i];
  }

  /**
   * `initialize_style_for_subtree(root, refs)`: a pre-order walk over the subtree of `root` that
   * never stops, calling `initialize_layout_data` on each node and pushing every record it
   * returns. Afterwards (`Touched`) every node of the subtree has layout data, records already
   * attached are kept, nodes outside the subtree and all links and tags are untouched; and
   * (`Registered`) `refs` has gained exactly the new records of the previously bare nodes of the
   * subtree, one each, in pre-order, all of them freshly allocated.
   */
  method InitializeStyleForSubtree(arena: Arena, ghost rank: seq<nat>, root: AbstractNode, refs: RootList)
    requires arena.Valid() && Ranked(arena.nodes, rank) && ValidHandle(arena.nodes, root)
    modifies arena, refs
    ensures arena.Valid() && |arena.nodes| == |old(arena.nodes)|
    ensures Touched(old(arena.nodes), arena.nodes, Preorder(old(arena.nodes), rank, root))
    ensures Registered(old(arena.nodes), arena.nodes, Preorder(old(arena.nodes), rank, root), old(refs.items), refs.items)
    ensures forall j :: |old(refs.items)| <= j < |refs.items| ==> fresh(refs.items[j])
    ensures forall j :: |old(refs.items)| <= j < |refs.items| ==> refs.items[j].style.None? && refs.items[j].flow.None?
    ensures forall i, j :: |old(refs.items)| <= i < j < |refs.items| ==> refs.items[i] != refs.items[j]
  {
    ghost var h0 := arena.nodes;
    ghost var base := refs.items;
    var order := VisitOrder(arena.nodes, rank, root);
    assert order[..0] == [];
    for i := 0 to |order|
      invariant arena.Valid() && |arena.nodes| == |h0|
      invariant Touched(h0, arena.nodes, order[..i]) && Registered(h0, arena.nodes, order[..i], base, refs.items)
      invariant forall j :: |base| <= j < |refs.items| ==>
        fresh(refs.items[j]) && refs.items[j].style.None? && refs.items[j].flow.None?
      invariant forall k, j :: |base| <= k < j < |refs.items| ==> refs.items[k] != refs.items[j]
    {
      var n := order[i];
      PrefixGrows(order, i);
      ghost var h := arena.nodes;
      ghost var items := refs.items;
      InitializeNodeForStyle(arena, n, refs);
      forall j | |base| <= j < |refs.items|
        ensures fresh(refs.items[j]) && refs.items[j].style.None? && refs.items[j].flow.None?
      {
        if j < |items| {
          assert refs.items[j] == items[j];
        }
      }
      VisitKeeps(h0, h, arena.nodes, order[..i], n, base, items, refs.items);
    }
    assert order[..|order|] == order;
  }

  /**
   * Once every node of the subtree has layout data, a walk over the subtree meets no newcomer,
   * so `initialize_style_for_subtree` pushes nothing (that it also changes nothing is
   * `TouchedAllKept`, used by `InitializeStyleAgain`).
   */
  lemma SecondPassPushesNothing(h: Heap, rank: seq<nat>, root: AbstractNode)
    requires Ranked(h, rank) && ValidHandle(h, root)
    requires forall m :: m in Preorder(h, rank, root) ==> ValidHandle(h, m) && LayoutDataOf(h, m).Some?
    ensures Newcomers(h, Preorder(h, rank, root)) == []
  {
    var pre := Preorder(h, rank, root);
    forall i | 0 <= i < |pre| ensures ValidHandle(h, pre[i]) && LayoutDataOf(h, pre[i]).Some? {
      assert pre[i] in pre;
    }
    NoNewcomers(h, pre);
  }

  /** A walk along nodes that all have layout data already meets no newcomer. */
  lemma {:induction false} NoNewcomers(h: Heap, s: seq<AbstractNode>)
    requires forall i :: 0 <= i < |s| ==> ValidHandle(h, s[i]) && LayoutDataOf(h, s[i]).Some?
    ensures Newcomers(h, s) == []
  {
    if s != [] {
      var init := s[..|s| - 1];
      assert forall i :: 0 <= i < |init| ==> init[i] == s[i];
      NoNewcomers(h, init);
    }
  }

  /** A walk that finds every node of `s` with layout data already attached changes nothing. */
  lemma TouchedAllKept(h: Heap, h': Heap, s: seq<AbstractNode>)
    requires forall i :: 0 <= i < |s| ==> ValidHandle(h, s[i]) && LayoutDataOf(h, s[i]).Some?
    requires |h'| == |h| && Touched(h, h', s)
    ensures h' == h
  {
    forall i | 0 <= i < |h| ensures h'[i] == h[i] {
      var m := AbstractNode(i);
      if m in s {
        assert LayoutDataOf(h', m) == LayoutDataOf(h, m);
        assert Bare(h'[i]) == Bare(h[i]);
      }
    }
  }

  /**
   * `initialize_style_for_subtree` on a subtree whose nodes all have layout data already: it
   * pushes nothing and leaves the arena as it was.
   */
  method InitializeStyleAgain(arena: Arena, ghost rank: seq<nat>, root: AbstractNode, refs: RootList)
    requires arena.Valid() && Ranked(arena.nodes, rank) && ValidHandle(arena.nodes, root)
    requires forall m :: m in Preorder(arena.nodes, rank, root) ==>
               ValidHandle(arena.nodes, m) && LayoutDataOf(arena.nodes, m).Some?
    modifies arena, refs
    ensures arena.nodes == old(arena.nodes) && refs.items == old(refs.items)
  {
    ghost var h := arena.nodes;
    ghost var pre := Preorder(h, rank, root);
    SecondPassPushesNothing(h, rank, root);
    forall i | 0 <= i < |pre| ensures ValidHandle(h, pre[i]) && LayoutDataOf(h, pre[i]).Some? {
      assert pre[i] in pre;
    }
    InitializeStyleForSubtree(arena, rank, root, refs);
    TouchedAllKept(h, arena.nodes, pre);
    assert refs.items == refs.items[..|old(refs.items)|];
  }

  /**
   * Running the walk twice: the first call attaches and registers the records (`h1` and
   * `items1` are the arena and the roots list it leaves, as `InitializeStyleForSubtree`
   * describes them); the second call then changes neither the arena nor the roots list.
   */
  method InitializeStyleTwice(arena: Arena, ghost rank: seq<nat>, root: AbstractNode, refs: RootList)
    returns (ghost h1: Heap, ghost items1: seq<LayoutData>)
    requires arena.Valid() && Ranked(arena.nodes, rank) && ValidHandle(arena.nodes, root)
    modifies arena, refs
    ensures |h1| == |old(arena.nodes)|
    ensures Touched(old(arena.nodes), h1, Preorder(old(arena.nodes), rank, root))
    ensures Registered(old(arena.nodes), h1, Preorder(old(arena.nodes), rank, root), old(refs.items), items1)
    ensures |items1| == |old(refs.items)| + |Newcomers(old(arena.nodes), Preorder(old(arena.nodes), rank, root))|
    ensures forall i, j :: |old(refs.items)| <= i < j < |items1| ==> items1[i] != items1[j]
    ensures arena.Valid() && SameTree(old(arena.nodes), arena.nodes)
    ensures arena.nodes == h1 && refs.items == items1
  {
    ghost var h0 := arena.nodes;
    InitializeStyleForSubtree(arena, rank, root, refs);
    h1 := arena.nodes;
    items1 := refs.items;
    PreorderSurvivesLayout(h0, h1, rank, root);
    ghost var pre := Preorder(h1, rank, root);
    forall m | m in pre ensures ValidHandle(h1, m) && LayoutDataOf(h1, m).Some? {
      var i :| 0 <= i < |pre| && pre[i] == m;
    }
    InitializeStyleAgain(arena, rank, root, refs);
  }
}
