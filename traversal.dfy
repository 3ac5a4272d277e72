/**
 * The traversals of src/servo/dom/node.rs: `each_child` over the sibling chain and the
 * recursive `traverse_preorder` / `traverse_postorder`, each with its early stop.
 *
 * A visitor is a pure function from handles to "continue?". A traversal is described by the
 * `Walk` it makes: whether it ran to the end, and the handles it called the visitor on, in order.
 * Every traversal is tied to `StopAt`, the walk along a fixed list of handles that stops right
 * after the first refusal, over an independent list: the children, the pre-order or the
 * post-order of the subtree.
 */
module DomTraversal {
  import opened Wrappers
  import opened DomNode
  import opened DomTree

  /** The outcome of a traversal: `cont` is false iff some visit asked to stop. */
  datatype Walk = Walk(cont: bool, visited: seq<AbstractNode>)

  /**
   * Visiting the handles of `s` in order, stopping straight after the first one the visitor
   * refuses: the visits are a prefix of `s`, all but the last accepted, the walk is complete iff
   * every handle was accepted, and it stops early exactly on a refusal.
   */
  function StopAt(s: seq<AbstractNode>, f: AbstractNode -> bool): (w: Walk)
    ensures w.visited <= s
    ensures forall i :: 0 <= i < |w.visited| - 1 ==> f(w.visited[i])
    ensures w.cont <==> forall i :: 0 <= i < |s| ==> f(s[i])
    ensures w.cont ==> w.visited == s
    ensures !w.cont ==> |w.visited| > 0 && !f(w.visited[|w.visited| - 1])
  {
    if s == [] then Walk(true, [])
    else if !f(s[0]) then Walk(false, [s[0]])
    else
      var r := StopAt(s[1..], f);
      assert forall i :: 1 <= i < |s| ==> s[i] == s[1..][i - 1];
      Walk(r.cont, [s[0]] + r.visited)
  }

  /** Running `w1` and, only if it completed, `w2` after it. */
  function AndThen(w1: Walk, w2: Walk): Walk
  {
    if !w1.cont then w1 else Walk(w2.cont, w1.visited + w2.visited)
  }

  /** A walk along `a + b` is the walk along `a` followed, if it completed, by the walk along `b`. */
  lemma {:induction false} StopAtAppend(a: seq<AbstractNode>, b: seq<AbstractNode>, f: AbstractNode -> bool)
    ensures StopAt(a + b, f) == AndThen(StopAt(a, f), StopAt(b, f))
  {
    if a == [] {
      assert a + b == b;
    } else {
      assert (a + b)[0] == a[0] && (a + b)[1..] == a[1..] + b;
      if f(a[0]) {
        StopAtAppend(a[1..], b, f);
      }
    }
  }

  //
  // each_child
  //

  /** One step along a sibling chain: `k`, then the chain from its next sibling, which ranks lower. */
  lemma ChainCons(h: Heap, rank: seq<nat>, k: AbstractNode)
    requires Ranked(h, rank) && ValidHandle(h, k)
    ensures Chain(h, rank, Some(k)) == [k] + Chain(h, rank, NextSibling(h, k))
    ensures Chain(h, rank, Some(k))[0] == k && Chain(h, rank, Some(k))[1..] == Chain(h, rank, NextSibling(h, k))
    ensures Measure(rank, NextSibling(h, k)) < Measure(rank, Some(k))
  {
    assert RankDrops(h, rank, k);
  }

  /** A walk along `done + s` whose visits in `done` were all accepted and which is refused at the
      head of `s` ends there. */
  lemma {:induction false} StopsAt(done: seq<AbstractNode>, s: seq<AbstractNode>, f: AbstractNode -> bool)
    requires StopAt(done, f) == Walk(true, done)
    requires s != [] && !f(s[0])
    ensures StopAt(done + s, f).visited == done + [s[0]]
  {
    StopAtAppend(done, s, f);
  }

  /** One accepted step of a walk that has accepted everything so far. */
  lemma AcceptsNext(done: seq<AbstractNode>, s: seq<AbstractNode>, f: AbstractNode -> bool)
    requires StopAt(done, f) == Walk(true, done)
    requires s != [] && f(s[0])
    ensures StopAt(done + [s[0]], f) == Walk(true, done + [s[0]])
    ensures done + s == (done + [s[0]]) + s[1..]
  {
    StopAtAppend(done, [s[0]], f);
  }

  /**
   * `each_child(n, f)`: calls `f` on `first_child` and then along `next_sibling`, stopping after
   * the first refusal. The calls it makes are exactly the walk along the children of `n`.
   */
  method EachChild(h: Heap, ghost rank: seq<nat>, n: AbstractNode, f: AbstractNode -> bool)
    returns (visited: seq<AbstractNode>)
    requires Ranked(h, rank) && ValidHandle(h, n)
    ensures visited == StopAt(Children(h, rank, n), f).visited
  {
    ghost var children := Children(h, rank, n);
    var current_opt := FirstChild(h, n);
    visited := [];
    ghost var rest := children;
    while current_opt.Some?
      invariant OptValid(h, current_opt) && rest == Chain(h, rank, current_opt)
      invariant visited + rest == children
      invariant StopAt(visited, f) == Walk(true, visited)
      decreases Measure(rank, current_opt)
    {
      var current := current_opt.value;
      ChainCons(h, rank, current);
      if !f(current) {
        StopsAt(visited, rest, f);
        visited := visited + [current];
        return;
      }
      AcceptsNext(visited, rest, f);
      visited := visited + [current];
      current_opt := NextSibling(h, current);
      rest := rest[1..];
    }
    assert visited == children;
  }

  /** In a tree, `each_child` visits the children from `first_child` to `last_child`, in order. */
  lemma EachChildVisitsChildren(h: Heap, rank: seq<nat>, n: AbstractNode, f: AbstractNode -> bool)
    requires TreeInv(h) && Ranked(h, rank) && ValidHandle(h, n)
    requires forall k :: ValidHandle(h, k) ==> f(k)
    ensures var s := StopAt(Children(h, rank, n), f).visited;
      && s == Children(h, rank, n)
      && (IsLeaf(h, n) <==> s == [])
      && (s != [] ==> Some(s[0]) == FirstChild(h, n) && Some(s[|s| - 1]) == LastChild(h, n))
      && (forall i :: 0 <= i < |s| ==> ValidHandle(h, s[i]) && Parent(h, s[i]) == Some(n))
      && (forall i :: 0 <= i < |s| - 1 ==> NextSibling(h, s[i]) == Some(s[i + 1]))
  {
    ChildrenShape(h, rank, n);
  }

  //
  // Pre-order and post-order
  //

  /** `traverse_preorder(n, f)`: visit `n`; on acceptance walk the children's subtrees in turn. */
  function TraversePreorder(h: Heap, ghost rank: seq<nat>, n: AbstractNode, f: AbstractNode -> bool): (w: Walk)
    requires Ranked(h, rank) && ValidHandle(h, n)
    ensures |w.visited| > 0 && w.visited[0] == n
    ensures !f(n) ==> w == Walk(false, [n])
    decreases rank[n.obj] + 1, 0
  {
    assert RankDrops(h, rank, n);
    if !f(n) then Walk(false, [n])
    else
      var kids := PreorderKids(h, rank, FirstChild(h, n), f);
      Walk(kids.cont, [n] + kids.visited)
  }

  /** The `for each_child |kid|` loop of `traverse_preorder`, from the child `cur` onwards. */
  function PreorderKids(h: Heap, ghost rank: seq<nat>, cur: Option<AbstractNode>, f: AbstractNode -> bool): (w: Walk)
    requires Ranked(h, rank) && OptValid(h, cur)
    ensures cur.None? ==> w == Walk(true, [])
    ensures cur.Some? ==> |w.visited| > 0 && w.visited[0] == cur.value
    decreases Measure(rank, cur), 1
  {
    match cur
    case None => Walk(true, [])
    case Some(k) =>
      assert RankDrops(h, rank, k);
      var w := TraversePreorder(h, rank, k, f);
      if !w.cont then w
      else AndThen(w, PreorderKids(h, rank, NextSibling(h, k), f))
  }

  /** `traverse_postorder(n, f)`: walk the children's subtrees in turn; if none stopped, visit `n`. */
  function TraversePostorder(h: Heap, ghost rank: seq<nat>, n: AbstractNode, f: AbstractNode -> bool): (w: Walk)
    requires Ranked(h, rank) && ValidHandle(h, n)
    ensures |w.visited| > 0
    ensures w.cont ==> |w.visited| > 0 && w.visited[|w.visited| - 1] == n
    decreases rank[n.obj] + 1, 0
  {
    assert RankDrops(h, rank, n);
    var kids := PostorderKids(h, rank, FirstChild(h, n), f);
    if !kids.cont then kids
    else Walk(f(n), kids.visited + [n])
  }

  /** The `for each_child |kid|` loop of `traverse_postorder`, from the child `cur` onwards. */
  function PostorderKids(h: Heap, ghost rank: seq<nat>, cur: Option<AbstractNode>, f: AbstractNode -> bool): (w: Walk)
    requires Ranked(h, rank) && OptValid(h, cur)
    ensures cur.None? ==> w == Walk(true, [])
    ensures cur.Some? ==> |w.visited| > 0
    decreases Measure(rank, cur), 1
  {
    match cur
    case None => Walk(true, [])
    case Some(k) =>
      assert RankDrops(h, rank, k);
      var w := TraversePostorder(h, rank, k, f);
      if !w.cont then w
      else AndThen(w, PostorderKids(h, rank, NextSibling(h, k), f))
  }

  /** The subtree of `n` in pre-order: `n`, then each child's subtree in sibling order. */
  ghost function Preorder(h: Heap, rank: seq<nat>, n: AbstractNode): (s: seq<AbstractNode>)
    requires Ranked(h, rank) && ValidHandle(h, n)
    ensures forall i :: 0 <= i < |s| ==> ValidHandle(h, s[i])
    decreases rank[n.obj] + 1, 0
  {
    assert RankDrops(h, rank, n);
    [n] + PreorderChain(h, rank, FirstChild(h, n))
  }

  ghost function PreorderChain(h: Heap, rank: seq<nat>, cur: Option<AbstractNode>): (s: seq<AbstractNode>)
    requires Ranked(h, rank) && OptValid(h, cur)
    ensures forall i :: 0 <= i < |s| ==> ValidHandle(h, s[i])
    decreases Measure(rank, cur), 1
  {
    match cur
    case None => []
    case Some(k) =>
      assert RankDrops(h, rank, k);
      Preorder(h, rank, k) + PreorderChain(h, rank, NextSibling(h, k))
  }

  /** The subtree of `n` in post-order: each child's subtree in sibling order, then `n`. */
  ghost function Postorder(h: Heap, rank: seq<nat>, n: AbstractNode): (s: seq<AbstractNode>)
    requires Ranked(h, rank) && ValidHandle(h, n)
    ensures forall i :: 0 <= i < |s| ==> ValidHandle(h, s[i])
    decreases rank[n.obj] + 1, 0
  {
    assert RankDrops(h, rank, n);
    PostorderChain(h, rank, FirstChild(h, n)) + [n]
  }

  ghost function PostorderChain(h: Heap, rank: seq<nat>, cur: Option<AbstractNode>): (s: seq<AbstractNode>)
    requires Ranked(h, rank) && OptValid(h, cur)
    ensures forall i :: 0 <= i < |s| ==> ValidHandle(h, s[i])
    decreases Measure(rank, cur), 1
  {
    match cur
    case None => []
    case Some(k) =>
      assert RankDrops(h, rank, k);
      Postorder(h, rank, k) + PostorderChain(h, rank, NextSibling(h, k))
  }

  /**
   * `traverse_preorder` is the walk along the pre-order of the subtree: the node before its
   * descendants, children in sibling order; it returns false iff some visit refused, and makes no
   * visit after that one.
   */
  lemma {:induction false} PreorderWalk(h: Heap, rank: seq<nat>, n: AbstractNode, f: AbstractNode -> bool)
    requires Ranked(h, rank) && ValidHandle(h, n)
    ensures TraversePreorder(h, rank, n, f) == StopAt(Preorder(h, rank, n), f)
    decreases rank[n.obj] + 1, 0
  {
    assert RankDrops(h, rank, n);
    var rest := PreorderChain(h, rank, FirstChild(h, n));
    assert ([n] + rest)[0] == n && ([n] + rest)[1..] == rest;
    if f(n) {
      PreorderChainWalk(h, rank, FirstChild(h, n), f);
    }
  }

  lemma {:induction false} PreorderChainWalk(h: Heap, rank: seq<nat>, cur: Option<AbstractNode>, f: AbstractNode -> bool)
    requires Ranked(h, rank) && OptValid(h, cur)
    ensures PreorderKids(h, rank, cur, f) == StopAt(PreorderChain(h, rank, cur), f)
    decreases Measure(rank, cur), 1
  {
    match cur
    case None =>
    case Some(k) =>
      assert RankDrops(h, rank, k);
      PreorderWalk(h, rank, k, f);
      PreorderChainWalk(h, rank, NextSibling(h, k), f);
      StopAtAppend(Preorder(h, rank, k), PreorderChain(h, rank, NextSibling(h, k)), f);
  }

  /**
   * `traverse_postorder` is the walk along the post-order of the subtree: every child's subtree
   * before the node; a refusal anywhere below stops it with false, and otherwise its result is the
   * node's own visit.
   */
  lemma {:induction false} PostorderWalk(h: Heap, rank: seq<nat>, n: AbstractNode, f: AbstractNode -> bool)
    requires Ranked(h, rank) && ValidHandle(h, n)
    ensures TraversePostorder(h, rank, n, f) == StopAt(Postorder(h, rank, n), f)
    decreases rank[n.obj] + 1, 0
  {
    assert RankDrops(h, rank, n);
    var kids := PostorderChain(h, rank, FirstChild(h, n));
    PostorderChainWalk(h, rank, FirstChild(h, n), f);
    StopAtAppend(kids, [n], f);
    assert StopAt([n], f) == Walk(f(n), [n]);
  }

  lemma {:induction false} PostorderChainWalk(h: Heap, rank: seq<nat>, cur: Option<AbstractNode>, f: AbstractNode -> bool)
    requires Ranked(h, rank) && OptValid(h, cur)
    ensures PostorderKids(h, rank, cur, f) == StopAt(PostorderChain(h, rank, cur), f)
    decreases Measure(rank, cur), 1
  {
    match cur
    case None =>
    case Some(k) =>
      assert RankDrops(h, rank, k);
      PostorderWalk(h, rank, k, f);
      PostorderChainWalk(h, rank, NextSibling(h, k), f);
      StopAtAppend(Postorder(h, rank, k), PostorderChain(h, rank, NextSibling(h, k)), f);
  }

  /** Both orders cover the same handles, each as often. */
  lemma {:induction false} OrdersAgree(h: Heap, rank: seq<nat>, n: AbstractNode)
    requires Ranked(h, rank) && ValidHandle(h, n)
    ensures multiset(Preorder(h, rank, n)) == multiset(Postorder(h, rank, n))
    decreases rank[n.obj] + 1, 0
  {
    assert RankDrops(h, rank, n);
    ChainOrdersAgree(h, rank, FirstChild(h, n));
  }

  lemma {:induction false} ChainOrdersAgree(h: Heap, rank: seq<nat>, cur: Option<AbstractNode>)
    requires Ranked(h, rank) && OptValid(h, cur)
    ensures multiset(PreorderChain(h, rank, cur)) == multiset(PostorderChain(h, rank, cur))
    decreases Measure(rank, cur), 1
  {
    match cur
    case None =>
    case Some(k) =>
      assert RankDrops(h, rank, k);
      OrdersAgree(h, rank, k);
      ChainOrdersAgree(h, rank, NextSibling(h, k));
  }

  /** With a visitor that never refuses, both traversals complete and visit the whole subtree. */
  lemma FullWalks(h: Heap, rank: seq<nat>, n: AbstractNode, f: AbstractNode -> bool)
    requires Ranked(h, rank) && ValidHandle(h, n)
    requires forall k :: ValidHandle(h, k) ==> f(k)
    ensures TraversePreorder(h, rank, n, f) == Walk(true, Preorder(h, rank, n))
    ensures TraversePostorder(h, rank, n, f) == Walk(true, Postorder(h, rank, n))
  {
    PreorderWalk(h, rank, n, f);
    PostorderWalk(h, rank, n, f);
  }
}
