/** The in-place edits of the node model: the `children` setter, `insertChild`,
    `insertChildren`, `removeChild`, `addChild` and the `subscript(indexPath:)`
    setter of `XMLNode`, the `rootElement` setter of `XMLDocument`, the
    `attributes` observers of `XMLElement`, and the replacing
    `subscript(indexPath:)` setter of `_XMLNode`.

    Each edit is a method of `Tree`, which owns the arena; each method is
    specified by a function giving the arena afterwards, and the lemmas below
    state what those functions guarantee. */
module XmlTree {
  import opened XmlNodes
  import opened XmlNavigation

  // ---------------------------------------------------------------------
  // The arena after each edit

  /** The `children` setter: every new child gets `self` as parent, the
      list is replaced (by [] for nil), then every previously held child gets
      a nil parent. */
  function AssignChildren(a: Arena, id: NodeId, v: Option<seq<NodeId>>): (r: Arena)
    requires WellFormed(a) && id < |a|
    requires v.Some? ==> forall j | 0 <= j < |v.value| :: id < v.value[j] < |a|
    ensures |r| == |a| && WellFormed(r)
    ensures forall k | 0 <= k < |a| :: r[k].kind == a[k].kind
  {
    var newList := v.GetOr([]);
    ReparentWellFormed(a, newList, Some(id));
    var b := Reparent(a, newList, Some(id));
    var c := b[id := b[id].(children := newList)];
    assert forall k | 0 <= k < |c| :: NodeOk(c, k) by {
      forall k | 0 <= k < |c| ensures NodeOk(c, k) {
        assert NodeOk(b, k);
      }
    }
    ReparentWellFormed(c, a[id].children, None);
    Reparent(c, a[id].children, None)
  }

  /** `insertChild`/`insertChildren`: the inserted nodes get `self` as
      parent and are spliced into the stored list at `index`. */
  function Inserted(a: Arena, id: NodeId, index: nat, cs: seq<NodeId>): (r: Arena)
    requires WellFormed(a) && id < |a|
    requires index <= |a[id].children|
    requires forall j | 0 <= j < |cs| :: id < cs[j] < |a|
    ensures |r| == |a| && WellFormed(r)
  {
    ReparentWellFormed(a, cs, Some(id));
    var b := Reparent(a, cs, Some(id));
    var ch := b[id].children;
    var c := b[id := b[id].(children := ch[..index] + cs + ch[index..])];
    assert forall k | 0 <= k < |c| :: NodeOk(c, k) by {
      forall k | 0 <= k < |c| ensures NodeOk(c, k) {
        assert NodeOk(b, k);
      }
    }
    c
  }

  /** `addChild`: the child gets `self` as parent and is appended to the
      stored list. */
  function Added(a: Arena, id: NodeId, x: NodeId): (r: Arena)
    requires WellFormed(a) && id < x < |a|
    ensures |r| == |a| && WellFormed(r)
  {
    ReparentWellFormed(a, [x], Some(id));
    var b := Reparent(a, [x], Some(id));
    var c := b[id := b[id].(children := b[id].children + [x])];
    assert forall k | 0 <= k < |c| :: NodeOk(c, k) by {
      forall k | 0 <= k < |c| ensures NodeOk(c, k) {
        assert NodeOk(b, k);
      }
    }
    c
  }

  /** `removeChild(at:)`: the child leaves the stored list, then gets a nil
      parent. */
  function Removed(a: Arena, id: NodeId, index: nat): (r: Arena)
    requires WellFormed(a) && id < |a|
    requires index < |a[id].children|
    ensures |r| == |a| && WellFormed(r)
  {
    var ch := a[id].children;
    var b := a[id := a[id].(children := ch[..index] + ch[index + 1..])];
    assert forall k | 0 <= k < |b| :: NodeOk(b, k) by {
      forall k | 0 <= k < |b| ensures NodeOk(b, k) {
        assert NodeOk(a, k);
      }
    }
    ReparentWellFormed(b, [ch[index]], None);
    Reparent(b, [ch[index]], None)
  }

  /** When the last step of an `XMLNode` index-path assignment does not trap:
      a value is inserted at `index` (or appended when `index` is the child
      count), nil removes the child at `index`. The inserted node must have
      been allocated after `t`. */
  predicate LastStepOk(a: Arena, t: NodeId, index: nat, v: Option<NodeId>)
    requires WellFormed(a) && t < |a|
  {
    match v
    case Some(x) => t < x < |a| && (index == |ChildList(a, t)| || index <= |a[t].children|)
    case None => index < |a[t].children|
  }

  /** The last step of the `XMLNode` index-path setter, applied to `t`. */
  function SetAtLast(a: Arena, t: NodeId, index: nat, v: Option<NodeId>): (r: Arena)
    requires WellFormed(a) && t < |a| && LastStepOk(a, t, index, v)
    ensures |r| == |a| && WellFormed(r)
  {
    match v
    case Some(x) =>
      if index == |ChildList(a, t)| then Added(a, t, x)
      else Inserted(a, t, index, [x])
    case None => Removed(a, t, index)
  }

  /** The `XMLNode` index-path setter does not trap: the path is non-empty,
      all but its last index resolve, and the last step is possible. */
  predicate SetAtPathOk(a: Arena, id: NodeId, path: seq<nat>, v: Option<NodeId>)
    requires WellFormed(a) && id < |a|
  {
    && path != []
    && var t := Get(a, id, path[..|path| - 1]);
    && t.Some?
    && LastStepOk(a, t.value, path[|path| - 1], v)
  }

  /** When the `rootElement` setter applies: `doc` is a document and the new
      root, if any, is an element allocated after it. */
  predicate RootElementOk(a: Arena, doc: NodeId, e: Option<NodeId>)
  {
    && WellFormed(a) && doc < |a| && a[doc].kind == Document
    && (e.Some? ==> doc < e.value < |a| && a[e.value].kind == Element)
  }

  /** The `rootElement` setter: keep only the non-element children (through
      the `children` setter), then `addChild` the new element, if any. */
  function RootElementAssigned(a: Arena, doc: NodeId, e: Option<NodeId>): (r: Arena)
    requires RootElementOk(a, doc, e)
    ensures |r| == |a| && WellFormed(r)
  {
    var kept := NonElements(a, ChildList(a, doc));
    var b := AssignChildren(a, doc, Some(kept));
    match e
    case None => b
    case Some(x) => Added(b, doc, x)
  }

  /** `filter { !($0 is XMLElement) }`. */
  function NonElements(a: Arena, cs: seq<NodeId>): (r: seq<NodeId>)
    requires forall j | 0 <= j < |cs| :: cs[j] < |a|
    ensures forall j | 0 <= j < |r| :: r[j] in cs && a[r[j]].kind != Element
    ensures forall c | c in cs && a[c].kind != Element :: c in r
    ensures Subsequence(r, cs)
  {
    Filter(cs, (c: NodeId) => c < |a| && a[c].kind != Element)
  }

  /** Assigning `attributes`: `willSet` gives every old attribute a nil
      parent, `didSet` gives every new attribute the element as parent. */
  function AttributesAssigned(a: Arena, e: NodeId, v: Option<seq<NodeId>>): (r: Arena)
    requires WellFormed(a) && e < |a| && a[e].kind == Element
    requires v.Some? ==> forall j | 0 <= j < |v.value| :: e < v.value[j] < |a|
    ensures |r| == |a| && WellFormed(r)
  {
    ReparentWellFormed(a, a[e].attributes.GetOr([]), None);
    var b := Reparent(a, a[e].attributes.GetOr([]), None);
    var c := b[e := b[e].(attributes := v)];
    assert forall k | 0 <= k < |c| :: NodeOk(c, k) by {
      forall k | 0 <= k < |c| ensures NodeOk(c, k) {
        assert NodeOk(b, k);
      }
    }
    ReparentWellFormed(c, v.GetOr([]), Some(e));
    Reparent(c, v.GetOr([]), Some(e))
  }

  /** The children list the `_XMLNode` setter writes back at its last step:
      append at the end, replace in place, or remove. */
  function EditList(cs: seq<NodeId>, i: nat, v: Option<NodeId>): (r: seq<NodeId>)
    requires v.Some? ==> i <= |cs|
    requires v.None? ==> i < |cs|
  {
    match v
    case Some(x) => if i == |cs| then cs + [x] else cs[i := x]
    case None => cs[..i] + cs[i + 1..]
  }

  /** When the `_XMLNode` setter does not trap: every step but the last goes
      into an existing child that conforms, and the last index is at most the
      child count (for a value) or below it (for nil). */
  predicate ReplaceOk(a: Arena, id: NodeId, path: seq<nat>, v: Option<NodeId>, conforming: set<Kind>)
    decreases |path|
  {
    && WellFormed(a) && id < |a|
    && path != []
    && var cs := ChildList(a, id);
    && var i := path[0];
    && if |path| > 1 then
         i < |cs| && a[cs[i]].kind in conforming && ReplaceOk(a, cs[i], path[1..], v, conforming)
       else
         match v
         case Some(x) => i <= |cs| && id < x < |a| && a[x].kind in conforming
         case None => i < |cs|
  }

  /** The node whose list a `_XMLNode` assignment edits: the one the path
      without its last index leads to. */
  function ReplaceTarget(a: Arena, id: NodeId, path: seq<nat>, v: Option<NodeId>, conforming: set<Kind>): (t: NodeId)
    requires ReplaceOk(a, id, path, v, conforming)
    ensures t < |a| && Get(a, id, path[..|path| - 1]) == Some(t)
    ensures var i, cs := path[|path| - 1], ChildList(a, t);
      && (v.Some? ==> i <= |cs| && t < v.value < |a| && a[v.value].kind in conforming)
      && (v.None? ==> i < |cs|)
    decreases |path|
  {
    if |path| == 1 then
      assert path[..0] == [];
      id
    else
      var c := ChildList(a, id)[path[0]];
      var t := ReplaceTarget(a, c, path[1..], v, conforming);
      assert path[..|path| - 1] == [path[0]] + path[1..][..|path| - 2];
      assert path[1..][|path| - 2] == path[|path| - 1];
      t
  }

  /** The `_XMLNode` setter: at the last step the edited list is written
      back through the `children` setter; at every step above it the
      unchanged list is written back the same way. */
  function Replaced(a: Arena, id: NodeId, path: seq<nat>, v: Option<NodeId>, conforming: set<Kind>): (r: Arena)
    requires ReplaceOk(a, id, path, v, conforming)
    ensures |r| == |a| && WellFormed(r)
    ensures forall k | 0 <= k < |a| :: r[k].kind == a[k].kind
    decreases |path|
  {
    var cs := ChildList(a, id);
    var i := path[0];
    if |path| > 1 then
      AssignChildren(Replaced(a, cs[i], path[1..], v, conforming), id, Some(cs))
    else
      AssignChildren(a, id, Some(EditList(cs, i, v)))
  }

  // ---------------------------------------------------------------------
  // What the edits guarantee

  /** The `children` setter: the node's own list becomes the new value (or
      []); a previously held child ends with no parent even when it is also
      in the new list; a newly added child ends with the node as parent;
      nothing else changes. Documents ignore parent assignments. */
  lemma AssignChildrenEffect(a: Arena, id: NodeId, v: Option<seq<NodeId>>, k: NodeId)
    requires WellFormed(a) && id < |a|
    requires v.Some? ==> forall j | 0 <= j < |v.value| :: id < v.value[j] < |a|
    requires k < |a|
    ensures var r := AssignChildren(a, id, v);
      && r[k].kind == a[k].kind && r[k].name == a[k].name
      && r[k].stringValue == a[k].stringValue && r[k].attributes == a[k].attributes
      && r[k].children == (if k == id then v.GetOr([]) else a[k].children)
      && r[k].parent == (if a[k].kind == Document then a[k].parent
                         else if k in a[id].children then None
                         else if k in v.GetOr([]) then Some(id)
                         else a[k].parent)
  {
    assert NodeOk(a, id);
    assert k in a[id].children ==> k != id;
  }

  /** `insertChild`/`insertChildren`: the list grows by exactly the inserted
      nodes, spliced in at `index` with everything else kept in order, and
      the container changes in nothing else; each inserted node changes in
      its parent only, which becomes `id`; no other node changes. */
  lemma InsertedEffect(a: Arena, id: NodeId, index: nat, cs: seq<NodeId>)
    requires WellFormed(a) && id < |a|
    requires index <= |a[id].children|
    requires forall j | 0 <= j < |cs| :: id < cs[j] < |a|
    ensures var r := Inserted(a, id, index, cs);
      && r[id].children == a[id].children[..index] + cs + a[id].children[index..]
      && |r[id].children| == |a[id].children| + |cs|
      && multiset(r[id].children) == multiset(a[id].children) + multiset(cs)
      && r[id] == a[id].(children := a[id].children[..index] + cs + a[id].children[index..])
      && (forall j | 0 <= j < |cs| :: r[cs[j]] == WithParent(a[cs[j]], Some(id)))
      && (forall j | 0 <= j < |cs| :: a[cs[j]].kind != Document ==> r[cs[j]].parent == Some(id))
      && (forall k | 0 <= k < |a| && k !in cs && k != id :: r[k] == a[k])
  {
    var ch := a[id].children;
    assert ch == ch[..index] + ch[index..];
    assert multiset(ch) == multiset(ch[..index]) + multiset(ch[index..]);
    assert NodeOk(a, id);
  }

  /** `insertChild`/`insertChildren` change no node's kind, and no node
      other than the container and the inserted ones. */
  lemma InsertedFrame(a: Arena, id: NodeId, index: nat, cs: seq<NodeId>, k: NodeId)
    requires WellFormed(a) && id < |a|
    requires index <= |a[id].children|
    requires forall j | 0 <= j < |cs| :: id < cs[j] < |a|
    requires k < |a|
    ensures var r := Inserted(a, id, index, cs);
      && r[k].kind == a[k].kind
      && (k == id ==> r[k].children == a[id].children[..index] + cs + a[id].children[index..])
      && (k !in cs && k != id ==> r[k] == a[k])
  {
  }

  /** `addChild` changes no node's kind, appends to the container's list and
      changes nothing else in it, gives the child the container as parent
      and changes nothing else in it, and changes no other node. */
  lemma AddedFrame(a: Arena, id: NodeId, x: NodeId, k: NodeId)
    requires WellFormed(a) && id < x < |a| && k < |a|
    ensures var r := Added(a, id, x);
      && r[k].kind == a[k].kind
      && (k == id ==> r[k].children == a[id].children + [x])
      && (k == id ==> r[k] == a[id].(children := a[id].children + [x]))
      && (k == x ==> r[k] == WithParent(a[x], Some(id)))
      && (k == x && a[x].kind != Document ==> r[k].parent == Some(id))
      && (k != x && k != id ==> r[k] == a[k])
  {
  }

  /** `addChild(x)` is `insertChild(x, at:)` at the end of the stored list. */
  lemma AddedIsInsertedAtEnd(a: Arena, id: NodeId, x: NodeId)
    requires WellFormed(a) && id < x < |a|
    ensures Added(a, id, x) == Inserted(a, id, |a[id].children|, [x])
  {
    var ch := a[id].children;
    assert ch[..|ch|] + [x] + ch[|ch|..] == ch + [x];
  }

  /** The children getter after `insertChild`/`insertChildren`: only the
      node inserted into answers differently. */
  lemma InsertedChildren(a: Arena, id: NodeId, index: nat, cs: seq<NodeId>)
    requires WellFormed(a) && id < |a|
    requires index <= |a[id].children|
    requires forall j | 0 <= j < |cs| :: id < cs[j] < |a|
    ensures var r := Inserted(a, id, index, cs);
      && (forall k | 0 <= k < |a| && k != id :: Children(r, k) == Children(a, k))
      && Children(r, id) == if a[id].kind == Attribute then None
                            else Some(a[id].children[..index] + cs + a[id].children[index..])
  {
    assert NodeOk(a, id);
  }

  /** `removeChild(at:)`: the list shrinks by one, losing exactly the child
      at `index`, and the container changes in nothing else; that child
      changes in its parent only, which becomes nil; no other node changes. */
  lemma RemovedEffect(a: Arena, id: NodeId, index: nat)
    requires WellFormed(a) && id < |a|
    requires index < |a[id].children|
    ensures var ch := a[id].children;
      var r := Removed(a, id, index);
      && r[id].children == ch[..index] + ch[index + 1..]
      && |r[id].children| == |ch| - 1
      && multiset(r[id].children) == multiset(ch) - multiset{ch[index]}
      && ch[index] < |a|
      && r[id] == a[id].(children := ch[..index] + ch[index + 1..])
      && r[ch[index]] == WithParent(a[ch[index]], None)
      && (a[ch[index]].kind != Document ==> r[ch[index]].parent == None)
      && (forall k | 0 <= k < |a| && k != ch[index] && k != id :: r[k] == a[k])
  {
    var ch := a[id].children;
    assert ch == ch[..index] + [ch[index]] + ch[index + 1..];
    assert multiset(ch) == multiset(ch[..index]) + multiset{ch[index]} + multiset(ch[index + 1..]);
    assert NodeOk(a, id);
  }

  /** `removeChild` at the index just used by `insertChild` restores the
      list; the node that went in and out is left without a parent. */
  lemma {:induction false} RemoveUndoesInsert(a: Arena, id: NodeId, index: nat, x: NodeId)
    requires WellFormed(a) && id < |a|
    requires index <= |a[id].children| && id < x < |a|
    ensures var b := Inserted(a, id, index, [x]);
      index < |b[id].children| &&
      var r := Removed(b, id, index);
      && r[id].children == a[id].children
      && (a[x].kind != Document ==> r[x].parent == None)
  {
    var ch := a[id].children;
    InsertedEffect(a, id, index, [x]);
    var b := Inserted(a, id, index, [x]);
    var nc := ch[..index] + [x] + ch[index..];
    assert b[id].children == nc;
    RemovedEffect(b, id, index);
    assert nc[index] == x;
    assert nc[..index] == ch[..index] && nc[index + 1..] == ch[index..];
    assert ch == ch[..index] + ch[index..];
  }

  /** After `insertChild(x, at: i)` on the node a path leads to, the path
      still leads there and one more step, `i`, leads to `x`. */
  lemma InsertedThenGet(a: Arena, id: NodeId, prefix: seq<nat>, t: NodeId, i: nat, x: NodeId)
    requires WellFormed(a) && id < |a|
    requires Get(a, id, prefix) == Some(t) && a[t].kind != Attribute
    requires i <= |a[t].children| && t < x < |a|
    ensures var r := Inserted(a, t, i, [x]);
      Get(r, id, prefix) == Some(t) && Get(r, id, prefix + [i]) == Some(x)
  {
    var r := Inserted(a, t, i, [x]);
    InsertedChildren(a, t, i, [x]);
    var ch := a[t].children;
    assert Children(r, t) == Some(ch[..i] + [x] + ch[i..]);
    GetAfterListChange(a, r, id, prefix, t, i);
  }

  /** After `insertChild(x, at: i)` on the node a path leads to, the
      sibling at `j` is the one that was at `j` before `i` and at `j - 1`
      after it. */
  lemma InsertedSibling(a: Arena, id: NodeId, prefix: seq<nat>, t: NodeId, i: nat, x: NodeId, j: nat)
    requires WellFormed(a) && id < |a|
    requires Get(a, id, prefix) == Some(t) && a[t].kind != Attribute
    requires i <= |a[t].children| && t < x < |a|
    requires j != i && j <= |a[t].children|
    ensures Get(Inserted(a, t, i, [x]), id, prefix + [j]) == Get(a, id, prefix + [if j < i then j else j - 1])
  {
    var r := Inserted(a, t, i, [x]);
    InsertedChildren(a, t, i, [x]);
    var ch := a[t].children;
    var nc := ch[..i] + [x] + ch[i..];
    assert Children(r, t) == Some(nc);
    var j' := if j < i then j else j - 1;
    GetAfterListChange(a, r, id, prefix, t, j);
    GetAfterListChange(a, a, id, prefix, t, j');
    assert nc[j] == ch[j'];
  }

  /** After `insertChild(x, at: i)` on the node a path leads to, the
      siblings before `i` keep their index and those after it move one index
      to the right. */
  lemma InsertedShiftsSiblings(a: Arena, id: NodeId, prefix: seq<nat>, t: NodeId, i: nat, x: NodeId)
    requires WellFormed(a) && id < |a|
    requires Get(a, id, prefix) == Some(t) && a[t].kind != Attribute
    requires i <= |a[t].children| && t < x < |a|
    ensures var r := Inserted(a, t, i, [x]);
      && (forall j | i < j <= |a[t].children| :: Get(r, id, prefix + [j]) == Get(a, id, prefix + [j - 1]))
      && (forall j | 0 <= j < i :: Get(r, id, prefix + [j]) == Get(a, id, prefix + [j]))
  {
    forall j | i < j <= |a[t].children| {
      InsertedSibling(a, id, prefix, t, i, x, j);
    }
    forall j | 0 <= j < i {
      InsertedSibling(a, id, prefix, t, i, x, j);
    }
  }

  /** Assigning a node at an index path of an element or document makes the
      path lead to that node (the getter then answers it). */
  lemma SetAtPathThenGet(a: Arena, id: NodeId, path: seq<nat>, x: NodeId)
    requires WellFormed(a) && id < |a|
    requires SetAtPathOk(a, id, path, Some(x))
    requires a[Get(a, id, path[..|path| - 1]).value].kind != Attribute
    ensures var t := Get(a, id, path[..|path| - 1]).value;
      Get(SetAtLast(a, t, path[|path| - 1], Some(x)), id, path) == Some(x)
  {
    var prefix, i := path[..|path| - 1], path[|path| - 1];
    var t := Get(a, id, prefix).value;
    if i == |ChildList(a, t)| {
      AddedIsInsertedAtEnd(a, t, x);
    }
    assert SetAtLast(a, t, i, Some(x)) == Inserted(a, t, i, [x]);
    assert path == prefix + [i];
    InsertedThenGet(a, id, prefix, t, i, x);
  }

  /** After the `rootElement` setter the document's list is its former
      non-element children, in order, followed by the new element, if any. */
  lemma RootElementAssignedChildren(a: Arena, doc: NodeId, e: Option<NodeId>)
    requires RootElementOk(a, doc, e)
    ensures RootElementAssigned(a, doc, e)[doc].children
              == NonElements(a, ChildList(a, doc)) + (if e.Some? then [e.value] else [])
  {
    var kept := NonElements(a, ChildList(a, doc));
    var b := AssignChildren(a, doc, Some(kept));
    AssignChildrenEffect(a, doc, Some(kept), doc);
    if e.Some? {
      var x := e.value;
      AddedFrame(b, doc, x, doc);
    }
  }

  /** The `rootElement` setter changes no node's kind, and leaves every
      former non-element child of the document without a parent. */
  lemma RootElementAssignedNode(a: Arena, doc: NodeId, e: Option<NodeId>, k: NodeId)
    requires RootElementOk(a, doc, e)
    requires k < |a|
    ensures var r := RootElementAssigned(a, doc, e);
      && r[k].kind == a[k].kind
      && (k in NonElements(a, ChildList(a, doc)) ==> r[k].parent == None)
  {
    var kept := NonElements(a, ChildList(a, doc));
    var b := AssignChildren(a, doc, Some(kept));
    AssignChildrenEffect(a, doc, Some(kept), k);
    assert NodeOk(a, k);
    if e.Some? {
      AddedFrame(b, doc, e.value, k);
    }
  }

  /** The `rootElement` round trip: the getter answers what the setter was
      given (nil for nil). */
  lemma RootElementRoundTrip(a: Arena, doc: NodeId, e: Option<NodeId>)
    requires RootElementOk(a, doc, e)
    ensures RootElement(RootElementAssigned(a, doc, e), doc) == e
  {
    var r := RootElementAssigned(a, doc, e);
    var kept := NonElements(a, ChildList(a, doc));
    RootElementAssignedChildren(a, doc, e);
    forall c | c in kept ensures r[c].kind != Element {
      RootElementAssignedNode(a, doc, e, c);
    }
    if e.Some? {
      RootElementAssignedNode(a, doc, e, e.value);
      assert ChildList(r, doc) == kept + [e.value];
    } else {
      assert ChildList(r, doc) == kept;
    }
  }

  /** After assigning `attributes`, the element holds exactly the new list
      and changes in nothing else; every new attribute has the element as
      parent, including one that was already there, and an old attribute
      that was dropped has no parent; those nodes change in nothing but
      their parent, and no other node changes. */
  lemma AttributesAssignedEffect(a: Arena, e: NodeId, v: Option<seq<NodeId>>, k: NodeId)
    requires WellFormed(a) && e < |a| && a[e].kind == Element
    requires v.Some? ==> forall j | 0 <= j < |v.value| :: e < v.value[j] < |a|
    requires k < |a|
    ensures var r := AttributesAssigned(a, e, v);
      && r[e] == a[e].(attributes := v)
      && (k in v.GetOr([]) ==> r[k] == WithParent(a[k], Some(e)))
      && (k in a[e].attributes.GetOr([]) && k !in v.GetOr([]) ==> r[k] == WithParent(a[k], None))
      && (k != e && k !in a[e].attributes.GetOr([]) && k !in v.GetOr([]) ==> r[k] == a[k])
      && (k in v.GetOr([]) && a[k].kind != Document ==> r[k].parent == Some(e))
      && (k in a[e].attributes.GetOr([]) && k !in v.GetOr([]) && a[k].kind != Document ==> r[k].parent == None)
  {
    assert NodeOk(a, e);
    assert e !in a[e].attributes.GetOr([]) && e !in v.GetOr([]);
  }

  /** One level of a `_XMLNode` assignment that goes deeper: the node writes
      its own, unchanged, list back, so its children getter answers as
      before, and every other node answers as after the deeper assignment. */
  lemma ReplacedStep(a: Arena, id: NodeId, path: seq<nat>, v: Option<NodeId>, conforming: set<Kind>, k: NodeId)
    requires ReplaceOk(a, id, path, v, conforming) && |path| > 1 && k < |a|
    ensures var c := ChildList(a, id)[path[0]];
      && ReplaceTarget(a, id, path, v, conforming) == ReplaceTarget(a, c, path[1..], v, conforming)
      && Children(Replaced(a, id, path, v, conforming), k)
           == if k == id then Children(a, id) else Children(Replaced(a, c, path[1..], v, conforming), k)
  {
    var cs := ChildList(a, id);
    var r' := Replaced(a, cs[path[0]], path[1..], v, conforming);
    AssignChildrenEffect(r', id, Some(cs), k);
  }

  lemma {:induction false} ReplacedChildrenAt(a: Arena, id: NodeId, path: seq<nat>, v: Option<NodeId>, conforming: set<Kind>, k: NodeId)
    requires ReplaceOk(a, id, path, v, conforming) && k < |a|
    ensures var t := ReplaceTarget(a, id, path, v, conforming);
      Children(Replaced(a, id, path, v, conforming), k)
        == if k != t then Children(a, k)
           else if a[t].kind == Attribute then None
           else Some(EditList(ChildList(a, t), path[|path| - 1], v))
    decreases |path|
  {
    if |path| > 1 {
      var c := ChildList(a, id)[path[0]];
      ReplacedStep(a, id, path, v, conforming, k);
      ReplacedChildrenAt(a, c, path[1..], v, conforming, k);
      assert path[1..][|path[1..]| - 1] == path[|path| - 1];
    } else {
      AssignChildrenEffect(a, id, Some(EditList(ChildList(a, id), path[0], v)), k);
    }
  }

  /** The children getter after a `_XMLNode` assignment: the node the prefix
      of the path leads to now answers the edited list; every other node
      answers what it did before. */
  lemma ReplacedChildren(a: Arena, id: NodeId, path: seq<nat>, v: Option<NodeId>, conforming: set<Kind>)
    requires ReplaceOk(a, id, path, v, conforming)
    ensures var t := ReplaceTarget(a, id, path, v, conforming);
      var r := Replaced(a, id, path, v, conforming);
      && (forall k | 0 <= k < |a| && k != t :: Children(r, k) == Children(a, k))
      && Children(r, t) == (if a[t].kind == Attribute then None
                            else Some(EditList(ChildList(a, t), path[|path| - 1], v)))
  {
    var t := ReplaceTarget(a, id, path, v, conforming);
    forall k | 0 <= k < |a| {
      ReplacedChildrenAt(a, id, path, v, conforming, k);
    }
  }

  /** One index of the level a `_XMLNode` assignment edits, read back
      afterwards: the value assigned at its own index, the former child at
      every other. */
  lemma ReplacedAt(a: Arena, id: NodeId, path: seq<nat>, x: NodeId, conforming: set<Kind>, j: nat)
    requires ReplaceOk(a, id, path, Some(x), conforming)
    requires a[ReplaceTarget(a, id, path, Some(x), conforming)].kind != Attribute
    requires j <= |ChildList(a, ReplaceTarget(a, id, path, Some(x), conforming))|
    ensures var r := Replaced(a, id, path, Some(x), conforming);
      var prefix, i := path[..|path| - 1], path[|path| - 1];
      Get(r, id, prefix + [j]) == if j == i then Some(x) else Get(a, id, prefix + [j])
  {
    var prefix, i := path[..|path| - 1], path[|path| - 1];
    ReplacedChildren(a, id, path, Some(x), conforming);
    var t := ReplaceTarget(a, id, path, Some(x), conforming);
    var r := Replaced(a, id, path, Some(x), conforming);
    var cs := ChildList(a, t);
    var nc := EditList(cs, i, Some(x));
    GetAfterListChange(a, r, id, prefix, t, j);
    GetAfterListChange(a, a, id, prefix, t, j);
  }

  /** `ReplacedAt` read through the `_XMLNode` getter, when the node
      conforms and every node the path visits before its last step has
      only conforming children (so that both getters index the same
      lists). */
  lemma ReplacedAtConforming(a: Arena, id: NodeId, path: seq<nat>, x: NodeId, conforming: set<Kind>, j: nat)
    requires ReplaceOk(a, id, path, Some(x), conforming)
    requires a[id].kind in conforming && PathConforms(a, id, path, conforming)
    requires a[ReplaceTarget(a, id, path, Some(x), conforming)].kind != Attribute
    requires j <= |ChildList(a, ReplaceTarget(a, id, path, Some(x), conforming))|
    ensures var r := Replaced(a, id, path, Some(x), conforming);
      var prefix := path[..|path| - 1];
      && r[id].kind in conforming
      && ConformingGet(r, id, prefix + [j], conforming)
           == if j == path[|path| - 1] then Some(x) else ConformingGet(a, id, prefix + [j], conforming)
  {
    ReplacedAt(a, id, path, x, conforming, j);
    ReplacedGettersAgree(a, id, path, x, conforming, j);
  }

  /** Under the conditions of `ReplacedAtConforming`, both getters agree on
      the edited level, before and after the assignment. */
  lemma ReplacedGettersAgree(a: Arena, id: NodeId, path: seq<nat>, x: NodeId, conforming: set<Kind>, j: nat)
    requires ReplaceOk(a, id, path, Some(x), conforming)
    requires a[id].kind in conforming && PathConforms(a, id, path, conforming)
    ensures var r := Replaced(a, id, path, Some(x), conforming);
      var prefix := path[..|path| - 1];
      && r[id].kind in conforming
      && ConformingGet(a, id, prefix + [j], conforming) == Get(a, id, prefix + [j])
      && ConformingGet(r, id, prefix + [j], conforming) == Get(r, id, prefix + [j])
  {
    var r := Replaced(a, id, path, Some(x), conforming);
    var prefix, i := path[..|path| - 1], path[|path| - 1];
    var t := ReplaceTarget(a, id, path, Some(x), conforming);
    assert path == prefix + [i];
    PathConformsAt(a, id, prefix, i, t, conforming);
    PathConformsAfterEdit(a, a, id, prefix, t, i, j, conforming);
    ConformingGetIsGet(a, id, prefix + [j], conforming);
    ReplacedChildren(a, id, path, Some(x), conforming);
    ReplacedChildrenConform(a, id, path, x, conforming);
    PathConformsAfterEdit(a, r, id, prefix, t, i, j, conforming);
    ConformingGetIsGet(r, id, prefix + [j], conforming);
  }

  /** When the edited list held only conforming children, so does the list
      written back. */
  lemma ReplacedChildrenConform(a: Arena, id: NodeId, path: seq<nat>, x: NodeId, conforming: set<Kind>)
    requires ReplaceOk(a, id, path, Some(x), conforming)
    requires ChildrenConform(a, ReplaceTarget(a, id, path, Some(x), conforming), conforming)
    ensures ChildrenConform(Replaced(a, id, path, Some(x), conforming), ReplaceTarget(a, id, path, Some(x), conforming), conforming)
  {
    var t := ReplaceTarget(a, id, path, Some(x), conforming);
    var r := Replaced(a, id, path, Some(x), conforming);
    var cs, i := ChildList(a, t), path[|path| - 1];
    ReplacedChildren(a, id, path, Some(x), conforming);
    if a[t].kind != Attribute {
      var nc := EditList(cs, i, Some(x));
      assert ChildList(r, t) == nc;
      forall m | 0 <= m < |nc| ensures r[nc[m]].kind in conforming {
        if m < |cs| && m != i {
          assert nc[m] == cs[m];
        }
      }
    }
  }

  /** The `_XMLNode` round trip: when the node conforms, the children along
      the path conform and the assignment edits the list of an element or a
      document, reading the path back yields the value assigned. */
  lemma ReplacedThenGet(a: Arena, id: NodeId, path: seq<nat>, x: NodeId, conforming: set<Kind>)
    requires ReplaceOk(a, id, path, Some(x), conforming)
    requires a[id].kind in conforming && PathConforms(a, id, path, conforming)
    requires a[ReplaceTarget(a, id, path, Some(x), conforming)].kind != Attribute
    ensures var r := Replaced(a, id, path, Some(x), conforming);
      r[id].kind in conforming && ConformingGet(r, id, path, conforming) == Some(x)
  {
    var prefix, i := path[..|path| - 1], path[|path| - 1];
    assert path == prefix + [i];
    ReplacedAtConforming(a, id, path, x, conforming, i);
  }

  /** A `_XMLNode` assignment replaces one child only: under the same
      conditions, every other index at the edited level reads back what it
      read before. */
  lemma ReplacedKeepsSiblings(a: Arena, id: NodeId, path: seq<nat>, x: NodeId, conforming: set<Kind>)
    requires ReplaceOk(a, id, path, Some(x), conforming)
    requires a[id].kind in conforming && PathConforms(a, id, path, conforming)
    requires a[ReplaceTarget(a, id, path, Some(x), conforming)].kind != Attribute
    ensures var r := Replaced(a, id, path, Some(x), conforming);
      var prefix := path[..|path| - 1];
      var t := ReplaceTarget(a, id, path, Some(x), conforming);
      && r[id].kind in conforming
      && forall j | 0 <= j < |ChildList(a, t)| && j != path[|path| - 1] ::
           ConformingGet(r, id, prefix + [j], conforming) == ConformingGet(a, id, prefix + [j], conforming)
  {
    var t := ReplaceTarget(a, id, path, Some(x), conforming);
    ReplacedAtConforming(a, id, path, x, conforming, 0);
    forall j | 0 <= j < |ChildList(a, t)| && j != path[|path| - 1] {
      ReplacedAtConforming(a, id, path, x, conforming, j);
    }
  }

  // ---------------------------------------------------------------------
  // The arena as an object, edited in place

  class Tree {
    var nodes: Arena

    ghost predicate Valid()
      reads this
    {
      WellFormed(nodes)
    }

    constructor ()
      ensures Valid() && nodes == []
    {
      nodes := [];
    }

    /** `XMLDocument()`, `XMLElement()` or an attribute node's `init()`: a
        fresh node with no parent, no children, no name and no text. */
    method NewNode(kind: Kind) returns (id: NodeId)
      requires Valid()
      modifies this
      ensures Valid()
      ensures id == |old(nodes)|
      ensures nodes == old(nodes) + [Node(kind, None, [], None, None, None)]
    {
      id := |nodes|;
      nodes := nodes + [Node(kind, None, [], None, None, None)];
      assert forall k | 0 <= k < |nodes| :: NodeOk(nodes, k) by {
        forall k | 0 <= k < |nodes| ensures NodeOk(nodes, k) {
          if k < id {
            assert NodeOk(old(nodes), k);
          }
        }
      }
    }

    /** `init(_:)` of a node of kind `kind`: a fresh node with the parent,
        name and text of `source` and no children. The copy is not added to
        the parent's list, and a document copy ignores the parent and the
        text, as its setters do. */
    method CopyNode(kind: Kind, source: NodeId) returns (id: NodeId)
      requires Valid() && source < |nodes|
      modifies this
      ensures Valid()
      ensures id == |old(nodes)| && |nodes| == id + 1 && nodes[..id] == old(nodes)
      ensures var s, n := old(nodes)[source], nodes[id];
        && n.kind == kind && n.children == [] && n.attributes == None
        && n.name == s.name
        && n.parent == (if kind == Document then None else s.parent)
        && n.stringValue == (if kind == Document then None else s.stringValue)
      ensures nodes[id].parent.Some? ==> nodes[id].parent.value < source
    {
      var s := nodes[source];
      assert NodeOk(nodes, source);
      id := NewNode(kind);
      SetParents([id], s.parent);
      SetName(id, s.name);
      SetStringValue(id, s.stringValue);
    }

    /** Assigning `name`. */
    method SetName(id: NodeId, name: Option<string>)
      requires Valid() && id < |nodes|
      modifies this
      ensures Valid()
      ensures nodes == old(nodes)[id := old(nodes)[id].(name := name)]
    {
      nodes := nodes[id := nodes[id].(name := name)];
      assert forall k | 0 <= k < |nodes| :: NodeOk(nodes, k) by {
        forall k | 0 <= k < |nodes| ensures NodeOk(nodes, k) {
          assert NodeOk(old(nodes), k);
        }
      }
    }

    /** Assigning `stringValue`; `XMLDocument` ignores the assignment. */
    method SetStringValue(id: NodeId, value: Option<string>)
      requires Valid() && id < |nodes|
      modifies this
      ensures Valid()
      ensures nodes == if old(nodes)[id].kind == Document then old(nodes)
                       else old(nodes)[id := old(nodes)[id].(stringValue := value)]
    {
      if nodes[id].kind != Document {
        nodes := nodes[id := nodes[id].(stringValue := value)];
        assert forall k | 0 <= k < |nodes| :: NodeOk(nodes, k) by {
          forall k | 0 <= k < |nodes| ensures NodeOk(nodes, k) {
            assert NodeOk(old(nodes), k);
          }
        }
      }
    }

    /** `ids.forEach { $0.parent = p }`. */
    method SetParents(ids: seq<NodeId>, p: Option<NodeId>)
      requires Valid()
      requires forall j | 0 <= j < |ids| :: ids[j] < |nodes|
      requires p.Some? ==> forall j | 0 <= j < |ids| :: p.value < ids[j]
      modifies this
      ensures Valid()
      ensures nodes == Reparent(old(nodes), ids, p)
    {
      var i := 0;
      while i < |ids|
        invariant 0 <= i <= |ids|
        invariant nodes == Reparent(old(nodes), ids[..i], p)
      {
        ghost var before := nodes;
        var x := ids[i];
        nodes := nodes[x := WithParent(nodes[x], p)];
        assert ids[..i + 1] == ids[..i] + [x];
        assert nodes == Reparent(old(nodes), ids[..i + 1], p) by {
          var want := Reparent(old(nodes), ids[..i + 1], p);
          assert |nodes| == |want|;
          forall k | 0 <= k < |nodes| ensures nodes[k] == want[k] {
            if k == x {
              assert before[k] == WithParent(old(nodes)[k], p) || before[k] == old(nodes)[k];
            } else {
              assert (k in ids[..i + 1]) == (k in ids[..i]);
            }
          }
        }
        i := i + 1;
      }
      assert ids[..i] == ids;
      ReparentWellFormed(old(nodes), ids, p);
    }

    /** The `children` setter. */
    method SetChildren(id: NodeId, v: Option<seq<NodeId>>)
      requires Valid() && id < |nodes|
      requires v.Some? ==> forall j | 0 <= j < |v.value| :: id < v.value[j] < |nodes|
      modifies this
      ensures Valid()
      ensures nodes == AssignChildren(old(nodes), id, v)
    {
      var oldValue := nodes[id].children;
      assert NodeOk(nodes, id);
      if v.Some? {
        SetParents(v.value, Some(id));
      }
      assert nodes == Reparent(old(nodes), v.GetOr([]), Some(id));
      nodes := nodes[id := nodes[id].(children := v.GetOr([]))];
      assert Valid() by {
        forall k | 0 <= k < |nodes| ensures NodeOk(nodes, k) {
          assert NodeOk(Reparent(old(nodes), v.GetOr([]), Some(id)), k);
        }
      }
      SetParents(oldValue, None);
    }

    /** `insertChild(_:at:)`. */
    method InsertChild(id: NodeId, child: NodeId, index: nat)
      requires Valid() && id < child < |nodes|
      requires index <= |nodes[id].children|
      modifies this
      ensures Valid()
      ensures nodes == Inserted(old(nodes), id, index, [child])
    {
      SetParents([child], Some(id));
      var ch := nodes[id].children;
      nodes := nodes[id := nodes[id].(children := ch[..index] + [child] + ch[index..])];
      assert Valid() by {
        forall k | 0 <= k < |nodes| ensures NodeOk(nodes, k) {
          assert NodeOk(Reparent(old(nodes), [child], Some(id)), k);
        }
      }
    }

    /** `insertChildren(_:at:)`. */
    method InsertChildren(id: NodeId, cs: seq<NodeId>, index: nat)
      requires Valid() && id < |nodes|
      requires forall j | 0 <= j < |cs| :: id < cs[j] < |nodes|
      requires index <= |nodes[id].children|
      modifies this
      ensures Valid()
      ensures nodes == Inserted(old(nodes), id, index, cs)
    {
      SetParents(cs, Some(id));
      var ch := nodes[id].children;
      nodes := nodes[id := nodes[id].(children := ch[..index] + cs + ch[index..])];
      assert Valid() by {
        forall k | 0 <= k < |nodes| ensures NodeOk(nodes, k) {
          assert NodeOk(Reparent(old(nodes), cs, Some(id)), k);
        }
      }
    }

    /** `removeChild(at:)`. */
    method RemoveChild(id: NodeId, index: nat)
      requires Valid() && id < |nodes|
      requires index < |nodes[id].children|
      modifies this
      ensures Valid()
      ensures nodes == Removed(old(nodes), id, index)
    {
      var ch := nodes[id].children;
      var child := ch[index];
      assert NodeOk(nodes, id);
      nodes := nodes[id := nodes[id].(children := ch[..index] + ch[index + 1..])];
      assert Valid() by {
        forall k | 0 <= k < |nodes| ensures NodeOk(nodes, k) {
          assert NodeOk(old(nodes), k);
        }
      }
      SetParents([child], None);
    }

    /** `addChild(_:)`. */
    method AddChild(id: NodeId, child: NodeId)
      requires Valid() && id < child < |nodes|
      modifies this
      ensures Valid()
      ensures nodes == Added(old(nodes), id, child)
    {
      SetParents([child], Some(id));
      var ch := nodes[id].children;
      nodes := nodes[id := nodes[id].(children := ch + [child])];
      assert Valid() by {
        forall k | 0 <= k < |nodes| ensures NodeOk(nodes, k) {
          assert NodeOk(Reparent(old(nodes), [child], Some(id)), k);
        }
      }
    }

    /** The `subscript(indexPath:)` setter of `XMLNode`. */
    method SetAtPath(id: NodeId, path: seq<nat>, v: Option<NodeId>)
      requires Valid() && id < |nodes|
      requires SetAtPathOk(nodes, id, path, v)
      modifies this
      ensures Valid()
      ensures nodes == SetAtLast(old(nodes), Get(old(nodes), id, path[..|path| - 1]).value, path[|path| - 1], v)
      decreases |path|
    {
      var index := path[0];
      if |path| == 1 {
        assert path[..0] == [];
        match v
        case Some(x) =>
          if index == |ChildList(nodes, id)| {
            AddChild(id, x);
          } else {
            InsertChild(id, x, index);
          }
        case None =>
          RemoveChild(id, index);
      } else {
        var rest := path[1..];
        assert path[..|path| - 1] == [index] + rest[..|rest| - 1];
        var child := Children(nodes, id).value[index];
        SetAtPath(child, rest, v);
      }
    }

    /** The `rootElement` setter of `XMLDocument`. */
    method SetRootElement(doc: NodeId, e: Option<NodeId>)
      requires Valid() && doc < |nodes| && nodes[doc].kind == Document
      requires e.Some? ==> doc < e.value < |nodes| && nodes[e.value].kind == Element
      modifies this
      ensures Valid()
      ensures nodes == RootElementAssigned(old(nodes), doc, e)
    {
      assert NodeOk(nodes, doc);
      var kept := NonElements(nodes, ChildList(nodes, doc));
      SetChildren(doc, Some(kept));
      if e.Some? {
        AddChild(doc, e.value);
      }
    }

    /** Assigning `attributes` on an element, with its `willSet` and
        `didSet` observers. */
    method SetAttributes(e: NodeId, v: Option<seq<NodeId>>)
      requires Valid() && e < |nodes| && nodes[e].kind == Element
      requires v.Some? ==> forall j | 0 <= j < |v.value| :: e < v.value[j] < |nodes|
      modifies this
      ensures Valid()
      ensures nodes == AttributesAssigned(old(nodes), e, v)
    {
      assert NodeOk(nodes, e);
      if nodes[e].attributes.Some? {
        SetParents(nodes[e].attributes.value, None);
      }
      assert nodes == Reparent(old(nodes), old(nodes)[e].attributes.GetOr([]), None);
      nodes := nodes[e := nodes[e].(attributes := v)];
      assert Valid() by {
        forall k | 0 <= k < |nodes| ensures NodeOk(nodes, k) {
          assert NodeOk(Reparent(old(nodes), old(nodes)[e].attributes.GetOr([]), None), k);
        }
      }
      if v.Some? {
        SetParents(v.value, Some(e));
      }
    }

    /** The `subscript(indexPath:)` setter of `_XMLNode`. */
    method ReplaceAtPath(id: NodeId, path: seq<nat>, v: Option<NodeId>, conforming: set<Kind>)
      requires Valid() && id < |nodes|
      requires ReplaceOk(nodes, id, path, v, conforming)
      modifies this
      ensures Valid()
      ensures nodes == Replaced(old(nodes), id, path, v, conforming)
      decreases |path|
    {
      var children := ChildList(nodes, id);
      var index := path[0];
      if |path| > 1 {
        var child := children[index];
        ReplaceAtPath(child, path[1..], v, conforming);
        SetChildren(id, Some(children));
      } else {
        var edited := EditList(children, index, v);
        SetChildren(id, Some(edited));
      }
    }
  }
}
