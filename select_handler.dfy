/**
 * The callbacks of src/servo/css/select_handler.rs through which the CSS selector engine queries
 * the document tree. Every query reads the arena and none writes it; an abort of the source
 * (`fail!` on a non-element) is a `Fail(StyledNonElement)` result.
 */
module SelectHandler {
  import opened Wrappers
  import opened DomNode

  /** The tag name of an element (the element record's `tag_name`). */
  function TagName(h: Heap, n: AbstractNode): (r: string)
    requires Wf(h) && ValidHandle(h, n) && IsElement(h, n)
    ensures h[n.obj].payload.Element? && r == h[n.obj].payload.tag_name
  {
    AsElement(h, n).value.payload.tag_name
  }

  /** Whether `n` is an element named `name`. */
  predicate Named(h: Heap, n: AbstractNode, name: string)
    requires Wf(h) && ValidHandle(h, n)
  {
    IsElement(h, n) && TagName(h, n) == name
  }

  /** `with_node_name(n, f)`: `f` applied to the tag name; aborts unless `n` is an element. */
  function WithNodeName<R>(h: Heap, n: AbstractNode, f: string -> R): (r: Outcome<R>)
    requires Wf(h) && ValidHandle(h, n)
    ensures r.Ok? <==> IsElement(h, n)
    ensures r.Fail? ==> r.error == StyledNonElement
    ensures r.Ok? ==> r.value == f(h[n.obj].payload.tag_name)
  {
    if !IsElement(h, n) then Fail(StyledNonElement)
    else Ok(f(AsElement(h, n).value.payload.tag_name))
  }

  /**
   * `named_parent_node(n, name)`: the parent when it is an element named `name`, `None` when
   * there is no parent or it is named otherwise; aborts when the parent is not an element.
   */
  function NamedParentNode(h: Heap, n: AbstractNode, name: string): (r: Outcome<Option<AbstractNode>>)
    requires Wf(h) && ValidHandle(h, n)
    ensures Parent(h, n).None? ==> r == Ok(None)
    ensures r.Fail? <==> Parent(h, n).Some? && !IsElement(h, Parent(h, n).value)
    ensures r.Fail? ==> r.error == StyledNonElement
    ensures r.Ok? && r.value.Some? <==> Parent(h, n).Some? && Named(h, Parent(h, n).value, name)
    ensures r.Ok? && r.value.Some? ==> r.value == Parent(h, n)
  {
    match Parent(h, n)
    case None => Ok(None)
    case Some(parent) =>
      WithNodeName(h, parent, (node_name: string) => if name == node_name then Some(parent) else None)
  }

  /** `parent_node(n)`: the raw parent link, unfiltered. */
  function ParentNode(h: Heap, n: AbstractNode): (r: Option<AbstractNode>)
    requires Wf(h) && ValidHandle(h, n)
    ensures r == h[n.obj].base.parent_node
    ensures OptValid(h, r)
  {
    Parent(h, n)
  }

  /** `node_is_root(n)`: the node has no parent. */
  function NodeIsRoot(h: Heap, n: AbstractNode): (r: bool)
    requires Wf(h) && ValidHandle(h, n)
    ensures r <==> ParentNode(h, n).None?
  {
    ParentNode(h, n).None?
  }

  //
  // named_ancestor_node
  //

  /** The parent of `n`, if any, is shallower than `n`. */
  ghost predicate ParentShallower(h: Heap, depth: seq<nat>, n: AbstractNode)
    requires Wf(h) && |depth| == |h| && ValidHandle(h, n)
  {
    Parent(h, n).Some? ==> depth[Parent(h, n).value.obj] < depth[n.obj]
  }

  /** `depth` witnesses that every parent chain of `h` ends: a parent is shallower than its child. */
  ghost predicate Rooted(h: Heap, depth: seq<nat>)
  {
    Wf(h) && |depth| == |h|
    && forall n {:trigger ParentShallower(h, depth, n)} :: ValidHandle(h, n) ==> ParentShallower(h, depth, n)
  }

  /** The strict ancestors of `n`, nearest first, up to the root. */
  ghost function Ancestors(h: Heap, depth: seq<nat>, n: AbstractNode): (s: seq<AbstractNode>)
    requires Rooted(h, depth) && ValidHandle(h, n)
    ensures forall i :: 0 <= i < |s| ==> ValidHandle(h, s[i])
    ensures s == [] <==> Parent(h, n).None?
    ensures s != [] ==> Some(s[0]) == Parent(h, n)
    ensures forall i :: 0 <= i < |s| - 1 ==> Parent(h, s[i]) == Some(s[i + 1])
    ensures s != [] ==> Parent(h, s[|s| - 1]).None?
    decreases depth[n.obj]
  {
    match Parent(h, n)
    case None => []
    case Some(p) =>
      assert ParentShallower(h, depth, n);
      var rest := Ancestors(h, depth, p);
      assert forall i :: 1 <= i < |rest| + 1 ==> ([p] + rest)[i] == rest[i - 1];
      [p] + rest
  }

  /** No handle of `s` is named `name`, and every one of them is an element. */
  ghost predicate Passes(h: Heap, s: seq<AbstractNode>, name: string)
    requires Wf(h) && forall i :: 0 <= i < |s| ==> ValidHandle(h, s[i])
  {
    forall i :: 0 <= i < |s| ==> IsElement(h, s[i]) && TagName(h, s[i]) != name
  }

  /**
   * The search of `named_ancestor_node` along a list of candidates: the first element named
   * `name`, provided every candidate before it is an element; `None` when every candidate is an
   * element named otherwise; an abort at the first non-element before any match.
   */
  ghost function FirstNamed(h: Heap, s: seq<AbstractNode>, name: string): (r: Outcome<Option<AbstractNode>>)
    requires Wf(h) && forall i :: 0 <= i < |s| ==> ValidHandle(h, s[i])
    ensures r == Ok(None) <==> Passes(h, s, name)
    ensures r.Ok? && r.value.Some? ==>
              exists k :: 0 <= k < |s| && s[k] == r.value.value && Named(h, s[k], name) && Passes(h, s[..k], name)
    ensures r.Fail? ==>
              r.error == StyledNonElement && exists k :: 0 <= k < |s| && !IsElement(h, s[k]) && Passes(h, s[..k], name)
  {
    if s == [] then Ok(None)
    else if !IsElement(h, s[0]) then
      assert s[..0] == [];
      Fail(StyledNonElement)
    else if TagName(h, s[0]) == name then
      assert s[..0] == [];
      Ok(Some(s[0]))
    else
      var r := FirstNamed(h, s[1..], name);
      assert forall j :: 0 <= j < |s| - 1 ==> s[1..][j] == s[j + 1];
      assert forall j :: 0 <= j < |s| - 1 ==> s[1..][..j] == s[1..j + 1];
      assert forall j :: 0 <= j < |s| - 1 ==> s[..j + 1] == [s[0]] + s[1..][..j];
      assert Passes(h, s, name) <==> Passes(h, s[1..], name);
      r
  }

  /**
   * `named_ancestor_node(n, name)`: climbs the parent chain; at each parent `with_node_name` sets
   * `found` when the tag is `name`, and the climb stops there. The result is the search along the
   * ancestors of `n`.
   */
  method NamedAncestorNode(h: Heap, ghost depth: seq<nat>, n: AbstractNode, name: string)
    returns (r: Outcome<Option<AbstractNode>>)
    requires Rooted(h, depth) && ValidHandle(h, n)
    ensures r == FirstNamed(h, Ancestors(h, depth, n), name)
  {
    var node := n;
    while true
      invariant ValidHandle(h, node)
      invariant FirstNamed(h, Ancestors(h, depth, node), name) == FirstNamed(h, Ancestors(h, depth, n), name)
      decreases depth[node.obj]
    {
      var parent := Parent(h, node);
      assert ParentShallower(h, depth, node);
      match parent {
        case Some(p) =>
          var found := false;
          var named := WithNodeName(h, p, (node_name: string) => name == node_name);
          if named.Fail? {
            return Fail(named.error);
          }
          if named.value {
            found := true;
          }
          if found {
            return Ok(Some(p));
          }
          node := p;
        case None =>
          return Ok(None);
      }
    }
  }

  /** The search along `s` stops at the first handle that is named `name` or is not an element. */
  lemma {:induction false} FirstNamedAt(h: Heap, s: seq<AbstractNode>, name: string, k: nat)
    requires Wf(h) && forall i :: 0 <= i < |s| ==> ValidHandle(h, s[i])
    requires k < |s| && Passes(h, s[..k], name)
    ensures Named(h, s[k], name) ==> FirstNamed(h, s, name) == Ok(Some(s[k]))
    ensures !IsElement(h, s[k]) ==> FirstNamed(h, s, name) == Fail(StyledNonElement)
  {
    if k > 0 {
      assert s[..k][0] == s[0];
      var t := s[1..];
      var u := t[..k - 1];
      assert forall i :: 0 <= i < |u| ==> u[i] == s[..k][i + 1];
      assert forall i :: 0 <= i < |t| ==> t[i] == s[i + 1];
      FirstNamedAt(h, t, name, k - 1);
    }
  }

  /**
   * What `named_ancestor_node` returns, given the ancestors `a_0, ..., a_k` of `n`, nearest
   * first, where all of `a_0, ..., a_(k-1)` are elements named otherwise: `Some(a_k)` when `a_k` is
   * named `name` (so no closer ancestor matches), and an abort when `a_k` is not an element. With
   * the ensures of `FirstNamed`, `None` means that every ancestor up to the root is an element
   * named otherwise.
   */
  lemma NamedAncestorSpec(h: Heap, depth: seq<nat>, n: AbstractNode, name: string, k: nat)
    requires Rooted(h, depth) && ValidHandle(h, n)
    requires k < |Ancestors(h, depth, n)|
    requires Passes(h, Ancestors(h, depth, n)[..k], name)
    ensures var a := Ancestors(h, depth, n)[k];
      && (Named(h, a, name) ==> FirstNamed(h, Ancestors(h, depth, n), name) == Ok(Some(a)))
      && (!IsElement(h, a) ==> FirstNamed(h, Ancestors(h, depth, n), name) == Fail(StyledNonElement))
  {
    FirstNamedAt(h, Ancestors(h, depth, n), name, k);
  }

  /** A root has neither a named parent nor a named ancestor. */
  lemma RootHasNoNamedAncestor(h: Heap, depth: seq<nat>, n: AbstractNode, name: string)
    requires Rooted(h, depth) && ValidHandle(h, n) && NodeIsRoot(h, n)
    ensures NamedParentNode(h, n, name) == Ok(None)
    ensures FirstNamed(h, Ancestors(h, depth, n), name) == Ok(None)
  {
  }

  /** A parent named `name` is both the named parent and the named ancestor. */
  lemma NamedParentIsNamedAncestor(h: Heap, depth: seq<nat>, n: AbstractNode, name: string)
    requires Rooted(h, depth) && ValidHandle(h, n)
    requires NamedParentNode(h, n, name).Ok? && NamedParentNode(h, n, name).value.Some?
    ensures FirstNamed(h, Ancestors(h, depth, n), name) == NamedParentNode(h, n, name)
  {
    var s := Ancestors(h, depth, n);
    assert s[..0] == [];
    NamedAncestorSpec(h, depth, n, name, 0);
  }

  //
  // Ids
  //

  /** `with_node_id(n, f)`: `f` applied to the optional `id` attribute; aborts unless `n` is an element. */
  function WithNodeId<R>(h: Heap, n: AbstractNode, f: Option<string> -> R): (r: Outcome<R>)
    requires Wf(h) && ValidHandle(h, n)
    ensures r.Ok? <==> IsElement(h, n)
    ensures r.Fail? ==> r.error == StyledNonElement
    ensures r.Ok? && "id" !in h[n.obj].payload.attrs ==> r.value == f(None)
    ensures r.Ok? && "id" in h[n.obj].payload.attrs ==> r.value == f(Some(h[n.obj].payload.attrs["id"]))
  {
    if !IsElement(h, n) then Fail(StyledNonElement)
    else Ok(f(GetAttr(AsElement(h, n).value, "id")))
  }

  /**
   * `node_has_id(n, id)`: aborts unless `n` is an element; false without an `id` attribute,
   * otherwise whether it equals `id` exactly.
   */
  function NodeHasId(h: Heap, n: AbstractNode, id: string): (r: Outcome<bool>)
    requires Wf(h) && ValidHandle(h, n)
    ensures r.Ok? <==> IsElement(h, n)
    ensures r.Fail? ==> r.error == StyledNonElement
    ensures r.Ok? ==> (r.value <==> "id" in h[n.obj].payload.attrs && h[n.obj].payload.attrs["id"] == id)
  {
    if !IsElement(h, n) then Fail(StyledNonElement)
    else
      match GetAttr(AsElement(h, n).value, "id")
      case None => Ok(false)
      case Some(existing_id) => Ok(id == existing_id)
  }

  /** `node_has_id` is `with_node_id` with the body "the id is present and equals `id`". */
  lemma NodeHasIdIsWithNodeId(h: Heap, n: AbstractNode, id: string)
    requires Wf(h) && ValidHandle(h, n)
    ensures NodeHasId(h, n, id) == WithNodeId(h, n, (v: Option<string>) => v == Some(id))
  {
  }

  /** The id comparison is exact: an element whose id is "X" does not have the id "x". */
  lemma NodeHasIdIsCaseSensitive(h: Heap, n: AbstractNode)
    requires Wf(h) && ValidHandle(h, n) && IsElement(h, n)
    requires h[n.obj].payload.attrs == map["id" := "X"]
    ensures NodeHasId(h, n, "x") == Ok(false)
    ensures NodeHasId(h, n, "X") == Ok(true)
  {
    assert "x" != "X";
  }

  /** Text and comment records make every element query abort. */
  lemma NonElementQueriesAbort(h: Heap, n: AbstractNode, id: string)
    requires Wf(h) && ValidHandle(h, n)
    requires TypeId(h, n) == TextNodeTypeId || TypeId(h, n) == CommentNodeTypeId
    ensures WithNodeName(h, n, (s: string) => s) == Fail(StyledNonElement)
    ensures WithNodeId(h, n, (v: Option<string>) => v) == Fail(StyledNonElement)
    ensures NodeHasId(h, n, id) == Fail(StyledNonElement)
  {
  }
}
