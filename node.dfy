/**
 * The core DOM types of src/servo/dom/node.rs: the node record, its type tag, the
 * auxiliary layout record, the concrete node variants and the handle through which
 * every node is reached.
 *
 * The raw `*mut Node` pointer of the source becomes an index into an arena (`Heap`),
 * and the `transmute` downcasts become a closed datatype of variants whose tag is
 * checked before the variant is handed out.
 */
module DomNode {
  import opened Wrappers

  /** A handle to one allocation of the arena; two handles are equal iff they name the same allocation. */
  datatype AbstractNode = AbstractNode(obj: nat)

  /**
   * Element subtypes. Only the image and style subtypes are distinguished by the core;
   * every other HTML element subtype is folded into `OtherElementTypeId`.
   */
  datatype ElementTypeId =
    | HTMLImageElementTypeId
    | HTMLStyleElementTypeId
    | OtherElementTypeId(kind: nat)

  datatype NodeTypeId =
    | DoctypeNodeTypeId
    | CommentNodeTypeId
    | ElementNodeTypeId(element: ElementTypeId)
    | TextNodeTypeId

  /** Result of selector matching; opaque to this core. */
  datatype CompleteSelectResults = CompleteSelectResults(token: nat)

  /** A layout box tree node; opaque to this core. */
  datatype FlowContext = FlowContext(token: nat)

  /** The auxiliary record owned by layout (the `@LayoutData` box). */
  class LayoutData {
    var style: Option<CompleteSelectResults>
    var flow: Option<FlowContext>

    /** `LayoutData::new`: both slots start absent. */
    constructor ()
      ensures style == None && flow == None
    {
      style := None;
      flow := None;
    }
  }

  /** The fixed-shape node record: tag, five tree links and the layout slot. */
  datatype Node = Node(
    type_id: NodeTypeId,
    parent_node: Option<AbstractNode>,
    first_child: Option<AbstractNode>,
    last_child: Option<AbstractNode>,
    next_sibling: Option<AbstractNode>,
    prev_sibling: Option<AbstractNode>,
    layout_data: Option<LayoutData>)

  /**
   * The concrete structure a handle points to: the node record as `base` (the source's
   * `parent: Node` first field) followed by the fields of its kind. Elements carry their tag name and their
   * attributes; `HTMLImageElement` and `HTMLStyleElement` are elements whose tag carries the
   * matching subtype.
   */
  datatype Variant = Variant(base: Node, payload: Payload)

  /** The fields each concrete structure adds after its node record. */
  datatype Payload =
    | Doctype(name: string, public_id: Option<string>, system_id: Option<string>, force_quirks: bool)
    | Comment(text: string)
    | Text(text: string)
    | Element(tag_name: string, attrs: map<string, string>)

  /** The ways a core operation aborts (the source's `assert`s and `fail!`s). */
  datatype Failure =
    | SelfAppend                 // append_child: assert self != child
    | ChildHasParent             // append_child: assert child has no parent
    | ChildHasPrevSibling        // append_child: assert child has no previous sibling
    | ChildHasNextSibling        // append_child: assert child has no next sibling
    | LastChildHasNextSibling    // append_child: assert the current last child has no next sibling
    | NotText                    // "node is not text"
    | NotElement                 // "node is not an element"
    | NotImageElement            // "node is not an image element"
    | StyledNonElement           // "attempting to style non-element node"

  type Outcome<T> = Result<T, Failure>

  /** The arena: allocation `i` is the structure behind `AbstractNode(i)`. */
  type Heap = seq<Variant>

  //
  // Construction
  //

  /** A record that is linked to nothing. */
  predicate Detached(n: Node)
  {
    n.parent_node.None? && n.first_child.None? && n.last_child.None?
    && n.next_sibling.None? && n.prev_sibling.None?
  }

  /**
   * The tag and the structure agree wherever a downcast reinterprets the allocation:
   * a Text tag sits on a Text structure and an element tag on an Element structure.
   */
  predicate CastSafe(v: Variant)
  {
    (v.base.type_id == TextNodeTypeId ==> v.payload.Text?)
    && (v.base.type_id.ElementNodeTypeId? ==> v.payload.Element?)
  }

  /** `Node::new`: a detached record with the given tag and no layout data. */
  function NewNode(type_id: NodeTypeId): (n: Node)
    ensures Detached(n) && n.type_id == type_id && n.layout_data.None?
  {
    Node(type_id, None, None, None, None, None, None)
  }

  /** `Doctype::new`. */
  function NewDoctype(name: string, public_id: Option<string>, system_id: Option<string>, force_quirks: bool): (v: Variant)
    ensures v.base == NewNode(DoctypeNodeTypeId) && CastSafe(v)
    ensures v.payload == Doctype(name, public_id, system_id, force_quirks)
  {
    Variant(NewNode(DoctypeNodeTypeId), Doctype(name, public_id, system_id, force_quirks))
  }

  /** `Comment::new`. */
  function NewComment(text: string): (v: Variant)
    ensures v.base == NewNode(CommentNodeTypeId) && v.payload == Comment(text) && CastSafe(v)
  {
    Variant(NewNode(CommentNodeTypeId), Comment(text))
  }

  /** `Text::new`: as in the source, the record is tagged as a comment, not as text. */
  function NewText(text: string): (v: Variant)
    ensures v.base == NewNode(CommentNodeTypeId) && v.payload == Text(text) && CastSafe(v)
  {
    Variant(NewNode(CommentNodeTypeId), Text(text))
  }

  /** An element of the given subtype with no attributes (the element module's constructor). */
  function NewElement(kind: ElementTypeId, tag_name: string): (v: Variant)
    ensures v.base == NewNode(ElementNodeTypeId(kind)) && v.payload == Element(tag_name, map[]) && CastSafe(v)
  {
    Variant(NewNode(ElementNodeTypeId(kind)), Element(tag_name, map[]))
  }

  //
  // The arena and the handle accessors
  //

  predicate ValidHandle(h: Heap, n: AbstractNode)
  {
    n.obj < |h|
  }

  predicate OptValid(h: Heap, o: Option<AbstractNode>)
  {
    o.Some? ==> ValidHandle(h, o.value)
  }

  predicate LinksInRange(h: Heap, n: Node)
  {
    OptValid(h, n.parent_node) && OptValid(h, n.first_child) && OptValid(h, n.last_child)
    && OptValid(h, n.next_sibling) && OptValid(h, n.prev_sibling)
  }

  /** Every link names an allocation of the arena and every allocation is safe to downcast. */
  ghost predicate Wf(h: Heap)
  {
    forall i :: 0 <= i < |h| ==> LinksInRange(h, h[i].base) && CastSafe(h[i])
  }

  /** `type_id`: in a well-formed arena the tag says which structure the allocation holds. */
  function TypeId(h: Heap, n: AbstractNode): (r: NodeTypeId)
    requires ValidHandle(h, n)
    ensures Wf(h) && r == TextNodeTypeId ==> h[n.obj].payload.Text?
    ensures Wf(h) && r.ElementNodeTypeId? ==> h[n.obj].payload.Element?
  {
    h[n.obj].base.type_id
  }

  function Parent(h: Heap, n: AbstractNode): (r: Option<AbstractNode>)
    requires Wf(h) && ValidHandle(h, n)
    ensures OptValid(h, r)
  {
    h[n.obj].base.parent_node
  }

  function FirstChild(h: Heap, n: AbstractNode): (r: Option<AbstractNode>)
    requires Wf(h) && ValidHandle(h, n)
    ensures OptValid(h, r)
  {
    h[n.obj].base.first_child
  }

  function LastChild(h: Heap, n: AbstractNode): (r: Option<AbstractNode>)
    requires Wf(h) && ValidHandle(h, n)
    ensures OptValid(h, r)
  {
    h[n.obj].base.last_child
  }

  function PrevSibling(h: Heap, n: AbstractNode): (r: Option<AbstractNode>)
    requires Wf(h) && ValidHandle(h, n)
    ensures OptValid(h, r)
  {
    h[n.obj].base.prev_sibling
  }

  function NextSibling(h: Heap, n: AbstractNode): (r: Option<AbstractNode>)
    requires Wf(h) && ValidHandle(h, n)
    ensures OptValid(h, r)
  {
    h[n.obj].base.next_sibling
  }

  function LayoutDataOf(h: Heap, n: AbstractNode): Option<LayoutData>
    requires ValidHandle(h, n)
  {
    h[n.obj].base.layout_data
  }

  /** `is_leaf`: the node has no first child. */
  predicate IsLeaf(h: Heap, n: AbstractNode)
    requires Wf(h) && ValidHandle(h, n)
    ensures IsLeaf(h, n) <==> FirstChild(h, n).None?
    ensures !IsLeaf(h, n) ==> ValidHandle(h, FirstChild(h, n).value)
  {
    FirstChild(h, n).None?
  }

  //
  // Tag checks and downcasts
  //

  function IsText(h: Heap, n: AbstractNode): (r: bool)
    requires ValidHandle(h, n)
    ensures r ==> !IsElement(h, n)
  {
    TypeId(h, n) == TextNodeTypeId
  }

  function IsElement(h: Heap, n: AbstractNode): (r: bool)
    requires ValidHandle(h, n)
    ensures r <==> exists kind :: TypeId(h, n) == ElementNodeTypeId(kind)
  {
    match TypeId(h, n)
    case ElementNodeTypeId(_) => true
    case _ => false
  }

  function IsImageElement(h: Heap, n: AbstractNode): (r: bool)
    requires ValidHandle(h, n)
    ensures r ==> IsElement(h, n) && !IsStyleElement(h, n)
  {
    TypeId(h, n) == ElementNodeTypeId(HTMLImageElementTypeId)
  }

  function IsStyleElement(h: Heap, n: AbstractNode): (r: bool)
    requires ValidHandle(h, n)
    ensures r ==> IsElement(h, n)
  {
    TypeId(h, n) == ElementNodeTypeId(HTMLStyleElementTypeId)
  }

  /** `as_text`: the Text structure behind the handle, or an abort if the tag is not Text. */
  function AsText(h: Heap, n: AbstractNode): (r: Outcome<Variant>)
    requires Wf(h) && ValidHandle(h, n)
    ensures r.Ok? <==> IsText(h, n)
    ensures r.Ok? ==> r.value == h[n.obj] && r.value.payload.Text?
    ensures r.Fail? ==> r.error == NotText
  {
    if !IsText(h, n) then Fail(NotText) else Ok(h[n.obj])
  }

  /** `as_element`: the Element structure behind the handle, or an abort on any other tag. */
  function AsElement(h: Heap, n: AbstractNode): (r: Outcome<Variant>)
    requires Wf(h) && ValidHandle(h, n)
    ensures r.Ok? <==> IsElement(h, n)
    ensures r.Ok? ==> r.value == h[n.obj] && r.value.payload.Element?
    ensures r.Fail? ==> r.error == NotElement
  {
    if !IsElement(h, n) then Fail(NotElement) else Ok(h[n.obj])
  }

  /** `as_image_element`: succeeds only on the exact image subtype. */
  function AsImageElement(h: Heap, n: AbstractNode): (r: Outcome<Variant>)
    requires Wf(h) && ValidHandle(h, n)
    ensures r.Ok? <==> IsImageElement(h, n)
    ensures r.Ok? ==> r.value == h[n.obj] && r.value.payload.Element?
    ensures r.Ok? ==> r.value.base.type_id == ElementNodeTypeId(HTMLImageElementTypeId)
    ensures r.Ok? ==> AsElement(h, n) == r
    ensures r.Fail? ==> r.error == NotImageElement
  {
    if !IsImageElement(h, n) then Fail(NotImageElement) else Ok(h[n.obj])
  }

  /** The element's attribute lookup (`get_attr`). */
  function GetAttr(e: Variant, name: string): (r: Option<string>)
    requires e.payload.Element?
    ensures r.Some? <==> name in e.payload.attrs
    ensures r.Some? ==> r.value == e.payload.attrs[name]
  {
    if name in e.payload.attrs then Some(e.payload.attrs[name]) else None
  }

  /**
   * A node built by `Text::new` carries the Comment tag, so it is neither text nor an element,
   * and `as_text` aborts on it.
   */
  lemma TextNodeIsNotTaggedText(h: Heap, n: AbstractNode, text: string)
    requires Wf(h) && ValidHandle(h, n) && h[n.obj] == NewText(text)
    ensures !IsText(h, n) && !IsElement(h, n)
    ensures AsText(h, n) == Fail(NotText)
    ensures AsElement(h, n) == Fail(NotElement)
  {
  }
}
