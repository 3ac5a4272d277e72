# Servo DOM node tree, selector adapter and layout aux data — a Dafny model

This project models three coupled pieces of Servo's early DOM and layout code:

- the DOM node record and its handle (`src/servo/dom/node.rs`): the node record's five tree
  links and layout-data slot, the concrete node structures, the accessors, `append_child`,
  `each_child`, `traverse_preorder` and `traverse_postorder`, and the tag-checked downcasts;
- the read-only queries that the CSS selector engine asks of the tree
  (`src/servo/css/select_handler.rs`);
- the layout auxiliary-data lifecycle (`src/servo/layout/aux.rs`). It attaches an empty
  `LayoutData` to every node of a subtree in pre-order. Each record it creates is pushed onto a
  roots list.

How the source's constructs map onto Dafny:

- **Heap.** The memory behind the raw node pointers is an arena `Heap = seq<Variant>`.
  `AbstractNode(obj)` is an index into it, so two handles are equal iff they name the same
  allocation, as in the source's `Eq`.
- **Structures.** A `Variant` is a node record (`base`) followed by the fields of its kind:
  Doctype, Comment, Text or Element. Elements are modelled as a tag name plus an attribute map.
- **Downcasts.** A downcast checks the tag and then hands out the structure. The well-formedness
  predicate `Wf` requires every link to be in range. It also requires the tag and the structure to
  agree wherever a `transmute` would reinterpret the allocation.
- **Mutation.** The arena is the class `DomTree.Arena`. `Alloc`, `append_child` and the
  corrected `append_child` are methods of that class. The layout writes (`InitializeLayoutData`,
  `InitializeNodeForStyle`, `InitializeStyleForSubtree`) are methods of the `LayoutAux` module
  that take the arena and the roots list as parameters and modify them. Each method is proved equal to a function on heap values
  (`AppendChildEffect`), or is specified by predicates over the old and new arena (`Touched`,
  `Registered`).
- **Aborts.** An `assert` or `fail!` becomes a `Fail(...)` result naming the check that fired.
  The arena left behind is modelled too, including the partial write of an abort that happens
  half-way through `append_child`.
- **Termination.** Traversal termination uses a ghost `rank`: the rank drops along
  `first_child` and `next_sibling`, which rules out cyclic child and sibling chains. The parent
  climb uses a ghost `depth` that drops along `parent`.
- **Visitors.** A visitor is a pure function from handles to "continue?". Every traversal is
  described by the `Walk` it makes: whether it completed, and the handles it visited, in order.
  `StopAt(list, f)` is the reference walk along a fixed list, stopping right after the first
  refusal. `each_child` is the `StopAt` walk along the children, `traverse_preorder` along the
  pre-order of the subtree, and `traverse_postorder` along the post-order.

Choices where the source text cannot be taken literally:

- **Typos.** `append_child` tests `child_n.parent` (src/servo/dom/node.rs:165) and writes
  `child_n.parent = self` (src/servo/dom/node.rs:169), and the accessor `parent()` reads
  `.parent`; the record's field is `parent_node`. All three are read as `parent_node`. Line 169
  also assigns `self` where the field holds an `Option<AbstractNode>`; the model writes
  `Some(p)`.
  `traverse_preorder` recurses with `self.traverse_preorder(kid)`; this is read as the kid's own
  traversal with the same visitor. The same holds for `traverse_postorder`. In
  `initialize_layout_data`, `node.data` is read as `layout_data`.
- **Text tag.** `Text::new` tags its record `CommentNodeTypeId` (src/servo/dom/node.rs:127).
  The model keeps this: such a node is neither text nor an element, and `as_text` aborts on it
  (`DomNode.TextNodeIsNotTaggedText`).
- **Visitor result.** The visitor of `initialize_style_for_subtree` returns no boolean. It is
  treated as "always continue", so the whole subtree is visited.
- **`last_child`.** `append_child` picks its write path by reading the parent's `last_child`
  (src/servo/dom/node.rs:171) and reads it again as the child's new previous sibling
  (src/servo/dom/node.rs:180), so the evidently intended update is
  `parent_n.last_child = Some(child)`. The code never assigns `last_child`. The model follows the code in `AppendChildEffect` and `Arena.AppendChild`, and states the
  consequences as findings. The evidently intended operation is `AppendChildCorrectedEffect` /
  `Arena.AppendChildCorrected`.

None of the selector queries can modify the tree: each one is a function of the arena value.

## Model

| member | source | states |
|---|---|---|
| `DomNode.NewNode` | src/servo/dom/node.rs:278-290 | a fresh record carries the given tag, all five links absent and no layout data |
| `DomNode.LayoutData.constructor` | src/servo/dom/node.rs:68-75 | a new layout record has `style` and `flow` both absent |
| `DomNode.NewDoctype` | src/servo/dom/node.rs:89-102 | a doctype is a fresh record with the Doctype tag holding the given name, ids and quirks flag |
| `DomNode.NewComment` | src/servo/dom/node.rs:110-116 | a comment is a fresh record with the Comment tag holding the text |
| `DomNode.NewText` | src/servo/dom/node.rs:124-130 | a text structure is a fresh record that carries the Comment tag, as written, and holds the text |
| `DomNode.NewElement` | src/servo/dom/node.rs:55 | an element is a fresh record tagged with its element subtype, carrying its tag name and no attributes |
| `DomNode.TypeId` | src/servo/dom/node.rs:143 | in a well-formed arena, a text tag means the allocation holds a Text structure and an element tag an Element structure |
| `DomNode.IsLeaf` | src/servo/dom/node.rs:156 | true iff the node has no first child; otherwise the first child names an allocation of the arena |
| `DomNode.Parent` | src/servo/dom/node.rs:144 | the parent link of a node in a well-formed arena names an allocation of that arena |
| `DomNode.FirstChild` | src/servo/dom/node.rs:145 | the first-child link names an allocation of the arena |
| `DomNode.LastChild` | src/servo/dom/node.rs:146 | the last-child link names an allocation of the arena |
| `DomNode.PrevSibling` | src/servo/dom/node.rs:147 | the previous-sibling link names an allocation of the arena |
| `DomNode.NextSibling` | src/servo/dom/node.rs:148 | the next-sibling link names an allocation of the arena |
| `DomNode.IsText` | src/servo/dom/node.rs:225 | a node tagged text is never an element |
| `DomNode.IsElement` | src/servo/dom/node.rs:236-241 | true iff the tag is `ElementNodeTypeId` of some subtype |
| `DomNode.IsImageElement` | src/servo/dom/node.rs:252-254 | the exact image subtag; such a node is an element and not a style element |
| `DomNode.IsStyleElement` | src/servo/dom/node.rs:265-267 | the exact style subtag; such a node is an element |
| `DomNode.AsText` | src/servo/dom/node.rs:227-234 | succeeds iff `is_text`, handing out exactly the allocation behind the handle, which is a Text structure; otherwise aborts with "not text" |
| `DomNode.AsElement` | src/servo/dom/node.rs:243-250 | succeeds iff `is_element`, handing out exactly the allocation behind the handle, which is an Element structure; otherwise aborts with "not an element" |
| `DomNode.AsImageElement` | src/servo/dom/node.rs:256-263 | succeeds iff `is_image_element`, handing out exactly the allocation behind the handle, an Element structure with the image tag, as `as_element` does; otherwise aborts with "not an image element" |
| `DomNode.GetAttr` | src/servo/css/select_handler.rs:74 | the attribute lookup is present iff the element has the attribute, and then yields its value |
| `DomNode.TextNodeIsNotTaggedText` | src/servo/dom/node.rs:127 | a node built by `Text::new` is neither text nor an element, so `as_text` and `as_element` abort on it |
| `DomTree.Rewrite` | src/servo/dom/node.rs:169 | one link write changes only the written record's links, keeps the arena well formed, and leaves every other allocation alone |
| `DomTree.AppendChildEffect` | src/servo/dom/node.rs:159-181 | aborts exactly on self-append, or on a child with a parent, a previous or a next sibling (earlier checks first), writing nothing; aborts on an old last child with a next sibling; completes iff none of these hold; tags, payloads and layout slots never change |
| `DomTree.AppendChildWrites` | src/servo/dom/node.rs:169-180 | on completion the child's parent is the receiver; the receiver's first child (when it had no last child) or the old last child's next sibling becomes the child; the child's previous sibling is the old last child; no other link changes, `last_child` included; a late abort has written only the child's parent |
| `DomTree.AppendChildCorrectedEffect` | src/servo/dom/node.rs:159-181 | the corrected operation aborts exactly when the as-written one does, and then leaves the same arena |
| `DomTree.AppendChildCorrectedWrites` | src/servo/dom/node.rs:169-180 | the corrected operation makes the same writes and also sets the receiver's last child to the child |
| `DomTree.ChainShape` | src/servo/dom/node.rs:189-198 | in a tree, the sibling chain from a child of `p` runs to `p`'s last child through children of `p`, with mutual forward and backward links |
| `DomTree.ChildrenShape` | src/servo/dom/node.rs:156 | in a tree, `is_leaf` holds iff the node has no children iff it has no last child; otherwise the children run from `first_child` to `last_child`, all pointing back at the node |
| `DomTree.ChainClosed` | src/servo/dom/node.rs:196 | a sibling chain is closed under `next_sibling` |
| `DomTree.ParentListsChild` | src/servo/dom/node.rs:144 | in a tree, every node with a parent is among the children `each_child` meets at that parent |
| `DomTree.FreshNodeCanBeAppended` | src/servo/dom/node.rs:165-167 | a freshly constructed record passes the child checks of `append_child`, so only the late check can abort |
| `DomTree.TreeRulesOutLateAbort` | src/servo/dom/node.rs:175 | in a tree, the check on the old last child never fires |
| `DomTree.RelinkKeepsLocal` | src/servo/dom/node.rs:169-180 | relinking a detached child under a parent, last child included, keeps the local tree invariant at every node |
| `DomTree.RelinkKeepsParentLocal` | src/servo/dom/node.rs:171-172 | the local invariant after relinking, at the parent |
| `DomTree.RelinkKeepsChildLocal` | src/servo/dom/node.rs:169 | the local invariant after relinking, at the appended child |
| `DomTree.RelinkKeepsLastLocal` | src/servo/dom/node.rs:173-177 | the local invariant after relinking, at the old last child |
| `DomTree.RelinkKeepsOtherLocal` | src/servo/dom/node.rs:180 | the local invariant after relinking, at every other node |
| `DomTree.CorrectedAppendKeepsTree` | src/servo/dom/node.rs:159-181 | the corrected `append_child` preserves the document-tree invariant |
| `DomTree.RelinkExtendsChain` | src/servo/dom/node.rs:176 | after relinking, the sibling chain from any child of the parent is the old chain followed by the new child |
| `DomTree.CorrectedAppendExtendsChildren` | src/servo/dom/node.rs:159-181 | after the corrected `append_child(p, c)`, the children of `p` are its old children followed by `c` |
| `DomTree.AppendChildBreaksTree` | src/servo/dom/node.rs:171-172 | as written, appending to a leaf of a tree completes with a first child but no last child, so the result is not a tree |
| `DomTree.AppendChildOrphansEarlierChild` | src/servo/dom/node.rs:171-172 | as written, a second append to a leaf replaces the first child: the earlier child keeps `p` as parent, but `p`'s chain holds only the later child |
| `DomTree.AppendChildTwiceExample` | src/servo/dom/node.rs:159-181 | a `ul` with two `li`s appended as written ends with children `[li2]`, while `li1` still names the `ul` as parent |
| `DomTree.CorrectedAppendKeepsRank` | src/servo/dom/node.rs:158-181 | appending a detached leaf with the corrected operation keeps a rank witness: the leaf takes rank 0 and every other node one more than before |
| `DomTree.CorrectedAppendLeaf` | src/servo/dom/node.rs:158-181 | appending a detached leaf to a node of a ranked tree with the corrected operation gives a ranked tree whose children of the receiver are the old ones followed by the leaf |
| `DomTree.CorrectedAppendKeepsOthersDetached` | src/servo/dom/node.rs:158-180 | the corrected append leaves every other detached record detached |
| `DomTree.AppendFirstOf` | src/servo/dom/node.rs:158-181 | appending the first of a list of distinct detached leaves completes, keeps a ranked tree, extends the children by it and leaves the rest of the list appendable |
| `DomTree.AppendAllExtendsChildren` | src/servo/dom/node.rs:158-181 | appending distinct detached leaves one after another with the corrected operation never aborts, keeps a ranked tree, and the receiver's children are the old ones followed by the leaves in order |
| `DomTree.RankedChildLower` | src/servo/dom/node.rs:200-210 | under a rank witness a first child ranks strictly below its parent, the measure on which the traversals descend |
| `DomTree.MutualFirstChildrenUnranked` | src/servo/dom/node.rs:200-210 | two nodes that are each other's first child admit no rank witness |
| `DomTree.AppendChildCycleExample` | src/servo/dom/node.rs:158-181 | two detached `div`s: `append_child(a, b)` then `append_child(b, a)` both complete, as written and corrected; `a` and `b` end as each other's first child, the corrected result even satisfies the document-tree invariant, and neither arena has a rank witness |
| `DomTree.Arena.Alloc` | src/servo/dom/node.rs:271-276 | handing over a constructed structure appends it to the arena and returns its new handle |
| `DomTree.Arena.AppendChild` | src/servo/dom/node.rs:159-181 | the in-place writes end in exactly the status and arena of `AppendChildEffect` |
| `DomTree.Arena.AppendChildCorrected` | src/servo/dom/node.rs:159-181 | the in-place corrected operation equals `AppendChildCorrectedEffect` and preserves the tree invariant |
| `DomTraversal.StopAt` | src/servo/dom/node.rs:189-198 | a walk along a list: its visits are a prefix of the list, all but the last accepted; it completes iff every element is accepted, and then visits the whole list; otherwise the last visit was refused |
| `DomTraversal.StopAtAppend` | src/servo/dom/node.rs:204-208 | a walk along `a + b` is the walk along `a` followed, if that completed, by the walk along `b` |
| `DomTraversal.EachChild` | src/servo/dom/node.rs:189-198 | the calls of the loop are exactly the walk along the children of the node, in sibling order, stopping right after the first refusal |
| `DomTraversal.EachChildVisitsChildren` | src/servo/dom/node.rs:189-198 | in a tree, with a visitor that never refuses, `each_child` visits every child from `first_child` to `last_child`, each pointing back at the node |
| `DomTraversal.TraversePreorder` | src/servo/dom/node.rs:200-203 | the first visit is the node itself; a refusal there stops the walk with false |
| `DomTraversal.PreorderKids` | src/servo/dom/node.rs:204-208 | the children loop of `traverse_preorder`: an empty sibling chain is a completed walk with no visits; otherwise the first visit is the first sibling |
| `DomTraversal.TraversePostorder` | src/servo/dom/node.rs:212-219 | when the walk completes, its last visit is the node itself |
| `DomTraversal.PostorderKids` | src/servo/dom/node.rs:213-217 | the children loop of `traverse_postorder`: an empty sibling chain is a completed walk with no visits; otherwise at least one node is visited |
| `DomTraversal.PreorderWalk` | src/servo/dom/node.rs:200-210 | `traverse_preorder` is the walk along the pre-order of the subtree: the node before its descendants, children in sibling order; false iff some visit refused, with no visit after it |
| `DomTraversal.PreorderChainWalk` | src/servo/dom/node.rs:204-208 | the children loop of `traverse_preorder` is the walk along the pre-orders of the children, concatenated |
| `DomTraversal.PostorderWalk` | src/servo/dom/node.rs:212-219 | `traverse_postorder` is the walk along the post-order: every child's subtree before the node; a refusal below stops it with false, otherwise the result is the node's own visit |
| `DomTraversal.PostorderChainWalk` | src/servo/dom/node.rs:213-217 | the children loop of `traverse_postorder` is the walk along the post-orders of the children, concatenated |
| `DomTraversal.OrdersAgree` | src/servo/dom/node.rs:200-219 | the pre-order and the post-order of a subtree hold the same handles, each equally often |
| `DomTraversal.FullWalks` | src/servo/dom/node.rs:200-219 | with a visitor that never refuses, both traversals complete and visit the whole subtree |
| `SelectHandler.WithNodeName` | src/servo/css/select_handler.rs:12-22 | succeeds iff the node is an element, passing its tag name to the body; otherwise aborts with "attempting to style non-element node" |
| `SelectHandler.TagName` | src/servo/css/select_handler.rs:16 | for an element, the tag name its Element structure holds |
| `SelectHandler.NamedParentNode` | src/servo/css/select_handler.rs:24-37 | `None` without a parent; an abort ("attempting to style non-element node") iff there is a parent and it is not an element; `Some(parent)` iff the parent is an element with tag `name` |
| `SelectHandler.ParentNode` | src/servo/css/select_handler.rs:39-41 | exactly the node's parent link |
| `SelectHandler.NodeIsRoot` | src/servo/css/select_handler.rs:66-68 | true iff `parent_node` is `None` |
| `SelectHandler.Ancestors` | src/servo/css/select_handler.rs:46-62 | the strict ancestors, nearest first: empty iff there is no parent; each entry is the parent of the one before; the last is a root |
| `SelectHandler.FirstNamed` | src/servo/css/select_handler.rs:46-62 | the search along a list: `None` iff every entry is an element named otherwise; `Some(k)` only for an element named `name` preceded by elements named otherwise; an abort only at a non-element preceded by elements named otherwise |
| `SelectHandler.NamedAncestorNode` | src/servo/css/select_handler.rs:44-64 | the loop's result is the search along the ancestors of the node |
| `SelectHandler.FirstNamedAt` | src/servo/css/select_handler.rs:50-58 | the search stops at the first entry that is named `name` (returning it) or is not an element (aborting) |
| `SelectHandler.NamedAncestorSpec` | src/servo/css/select_handler.rs:44-64 | `named_ancestor_node` returns the nearest ancestor named `name` when all closer ones are elements named otherwise, and aborts at a non-element met first |
| `SelectHandler.RootHasNoNamedAncestor` | src/servo/css/select_handler.rs:61 | a root has neither a named parent nor a named ancestor |
| `SelectHandler.NamedParentIsNamedAncestor` | src/servo/css/select_handler.rs:56-57 | a parent named `name` is both the named parent and the named ancestor |
| `SelectHandler.WithNodeId` | src/servo/css/select_handler.rs:70-75 | succeeds iff the node is an element, passing the optional `id` attribute to the body; otherwise aborts |
| `SelectHandler.NodeHasId` | src/servo/css/select_handler.rs:77-85 | aborts on a non-element; otherwise true iff the `id` attribute is present and equals the argument |
| `SelectHandler.NodeHasIdIsWithNodeId` | src/servo/css/select_handler.rs:70-85 | `node_has_id` is `with_node_id` with the body "present and equal" |
| `SelectHandler.NodeHasIdIsCaseSensitive` | src/servo/css/select_handler.rs:83 | the id comparison is exact: the id "X" matches "X" and not "x" |
| `SelectHandler.NonElementQueriesAbort` | src/servo/css/select_handler.rs:13-14 | text and comment records make every element query abort |
| `LayoutAux.RootList.Push` | src/servo/layout/aux.rs:33 | a push appends exactly the record and keeps the existing entries |
| `LayoutAux.InitializeLayoutData` | src/servo/layout/aux.rs:16-26 | with layout data already present: returns `None` and changes nothing; otherwise attaches and returns a fresh record with `style` and `flow` absent, changing no other node; afterwards the node has layout data and links, tags and payloads are as before |
| `LayoutAux.InitializeNodeForStyle` | src/servo/layout/aux.rs:31-36 | the visitor: a node without layout data gets a fresh record with `style` and `flow` absent, which is added to the roots list and is all that changes; a node with layout data changes nothing |
| `LayoutAux.NewcomersSnoc` | src/servo/layout/aux.rs:32-34 | one more visit adds the node to the newcomers iff it is bare and not met before |
| `LayoutAux.NewcomersExact` | src/servo/layout/aux.rs:31-35 | the newcomers are exactly the bare nodes of the walk, without repetition |
| `LayoutAux.SameLinks` | src/servo/layout/aux.rs:16-37 | writes to layout slots leave every link and tag as it was |
| `LayoutAux.PreorderSurvivesLayout` | src/servo/layout/aux.rs:31 | writes to layout slots leave the rank witness and the pre-order of every subtree in place |
| `LayoutAux.PreorderSurvives` | src/servo/layout/aux.rs:31 | equal child and sibling links give equal pre-orders |
| `LayoutAux.PreorderChainSurvives` | src/servo/layout/aux.rs:31 | equal child and sibling links give equal pre-orders of a sibling chain |
| `LayoutAux.VisitKeeps` | src/servo/layout/aux.rs:31-36 | one visit keeps both walk invariants (`Touched`, `Registered`) for the walk extended by the visited node |
| `LayoutAux.VisitOrder` | src/servo/layout/aux.rs:31 | the walk with a visitor that always continues meets the whole pre-order of the subtree |
| `LayoutAux.InitializeStyleForSubtree` | src/servo/layout/aux.rs:30-37 | afterwards every subtree node has layout data, records already attached are kept, nodes outside the subtree and all links and tags are untouched; `refs` gains exactly one fresh record per previously bare subtree node, in pre-order, after its existing entries, each with `style` and `flow` absent, no two of them the same record |
| `LayoutAux.SecondPassPushesNothing` | src/servo/layout/aux.rs:18-19 | once every subtree node has layout data, a second walk has no newcomers |
| `LayoutAux.NoNewcomers` | src/servo/layout/aux.rs:18-19 | a walk over nodes that all have layout data has no newcomers |
| `LayoutAux.TouchedAllKept` | src/servo/layout/aux.rs:18-19 | a walk that only meets nodes with layout data, and changes only the slots of nodes it meets, leaves the arena as it was |
| `LayoutAux.InitializeStyleAgain` | src/servo/layout/aux.rs:30-37 | on a subtree whose nodes all have layout data already, `initialize_style_for_subtree` leaves the arena and the roots list exactly as they were |
| `LayoutAux.InitializeStyleTwice` | src/servo/layout/aux.rs:30-37 | the first walk leaves `h1` and `items1`, which it touches and registers as `InitializeStyleForSubtree` describes: one distinct record per bare subtree node, only layout slots changed; the second walk then leaves the arena equal to `h1` and the roots list equal to `items1` |

## Left out

- `define_bindings` (src/servo/dom/node.rs:322-327): it wires up the SpiderMonkey JavaScript compartment, a foreign runtime.
- `dump`, `dump_indent` and `debug_str` (src/servo/dom/node.rs:293-320): debug output only.
- `as_node`, `Node::as_abstract_node` and the `transmute` casts: raw memory reinterpretation. They are replaced by the arena (`DomTree.Arena.Alloc`) and the `Variant` datatype, whose tag is checked before a structure is handed out.
- src/servo-gfx/util/time.rs is not part of this model: it wraps the wall clock and a debug log.
- The contents of `CompleteSelectResults` and `FlowContext` are opaque tokens. `Document` and `Window` do not appear.
- The element module is not part of this model. An element is a tag name plus an attribute map. Element subtypes other than image and style are folded into one numbered subtype.
- Visitors are pure functions. A visitor's side effects are not modelled; the one visitor of the core with side effects, that of `initialize_style_for_subtree`, is modelled separately.
- LayoutAux.InitializeStyleForSubtree: the order of visits is computed as the subtree's pre-order before the first write, and the visits are then replayed in that order. This equals the interleaved walk because the visitor writes only layout slots, which the traversal never reads.
- The roots list is a plain append-only sequence. Garbage-collection semantics of the `@` boxes are not modelled. Nor is the split between the script and layout tasks, or any concurrency.
- DomTraversal.EachChild: modelled on an arena value with a pure visitor. A visitor that relinks nodes during the walk is not modelled.
- DomTree.CorrectedAppendKeepsRank: proved for a leaf child only. Appending a detached child that has children of its own is not covered.
- DomTree.AppendAllExtendsChildren: covers distinct detached leaves appended to one receiver, not interleaved appends to different receivers.
- The traversals, `each_child`, `named_ancestor_node` and `initialize_style_for_subtree` require a termination witness (`Ranked` or `Rooted`). The source loops for ever on a cyclic child, sibling or parent chain; the model does not describe that divergence. The witness ranks the whole arena, not only the nodes a walk reaches. So an arena with a cyclic chain anywhere is outside these operations, even when the source's walk from the given node would end.
- Fixed-width integers do not occur in the core, so no wrap-around is modelled.

## Findings

| source | as written | input that shows it | evidently intended | confidence | as-written member | corrected member |
|---|---|---|---|---|---|---|
| src/servo/dom/node.rs:159-181 | `append_child` never assigns the parent's `last_child`, so a leaf that gains a child has a first child and no last child; a second append then overwrites `first_child` and loses the earlier child from the sibling chain | a `ul` element and two detached `li` elements; `append_child(ul, li1)` then `append_child(ul, li2)`: the children of `ul` are `[li2]`, while `li1` still names `ul` as its parent | the parent's `last_child` becomes the appended child, so the tree invariant holds and the children grow by one at the end | not executed | `DomTree.AppendChildTwiceExample` | `DomTree.CorrectedAppendKeepsTree` |
| src/servo/dom/node.rs:158-167 | the guards check only that the child is not the receiver and has no parent and no siblings; nothing checks that the receiver lies outside the child's subtree, which the comment on line 158 requires, so an append can close a cycle of child links | two detached `div` elements `a` and `b`; `append_child(a, b)` then `append_child(b, a)`: both complete, even with the `last_child` write added, `a` and `b` are each other's first child, and no rank witness exists; `traverse_preorder` from either, with a visitor that always continues, recurses for ever | `append_child` is only applied to a child disconnected from the receiver's tree; appending a detached leaf then keeps a rank witness and the traversals terminate | not executed | `DomTree.AppendChildCycleExample` | `DomTree.CorrectedAppendLeaf` |
