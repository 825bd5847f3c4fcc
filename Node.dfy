/** The node model shared by every part of the XML library: the three node
    kinds (`XMLDocument`, `XMLElement`, the attribute node), their stored
    fields, and the arena that holds them. A node is addressed by its index in
    the arena; indices are handed out in allocation order. */
module XmlNodes {

  datatype Option<+T> = None | Some(value: T) {
    function GetOr(default: T): T
    {
      match this
      case Some(v) => v
      case None => default
    }
  }

  /** Swift's `Result`: a value or the error that was thrown. */
  datatype Result<+T, +E> = Success(value: T) | Failure(error: E)

  /** `XMLError.invalidXPath`, the one error the path matcher throws. */
  datatype XmlError = InvalidXPath

  type NodeId = nat

  datatype Kind = Document | Element | Attribute

  /** One node. `children` is the stored `_children` array (every kind has
      one); `attributes` exists only on elements and starts out nil. */
  datatype Node = Node(
    kind: Kind,
    parent: Option<NodeId>,
    children: seq<NodeId>,
    attributes: Option<seq<NodeId>>,
    name: Option<string>,
    stringValue: Option<string>)

  type Arena = seq<Node>

  /** The shape every operation keeps: references stay inside the arena, a
      node's container and its parent were allocated before it (so the tree
      has no cycles), a document has no parent, no text and no attributes, and
      only elements carry an attribute list. */
  predicate NodeOk(a: Arena, i: NodeId)
    requires i < |a|
  {
    var n := a[i];
    && (n.parent.Some? ==> n.parent.value < i)
    && (forall j | 0 <= j < |n.children| :: i < n.children[j] < |a|)
    && (n.attributes.Some? ==> forall j | 0 <= j < |n.attributes.value| :: i < n.attributes.value[j] < |a|)
    && (n.kind == Document ==> n.parent == None && n.stringValue == None)
    && (n.kind != Element ==> n.attributes == None)
  }

  predicate WellFormed(a: Arena)
  {
    forall i | 0 <= i < |a| :: NodeOk(a, i)
  }

  /** The `parent` getter: `XMLDocument` overrides it to always be nil. */
  function Parent(a: Arena, id: NodeId): (r: Option<NodeId>)
    requires WellFormed(a) && id < |a|
    ensures r.Some? ==> r.value < id
    ensures a[id].kind == Document ==> r == None
  {
    assert NodeOk(a, id);
    if a[id].kind == Document then None else a[id].parent
  }

  /** The `children` getter: the base class answers nil, `XMLDocument` and
      `XMLElement` answer their stored list. */
  function Children(a: Arena, id: NodeId): (r: Option<seq<NodeId>>)
    requires WellFormed(a) && id < |a|
    ensures r.Some? <==> a[id].kind != Attribute
    ensures r.Some? ==> forall j | 0 <= j < |r.value| :: id < r.value[j] < |a|
  {
    assert NodeOk(a, id);
    if a[id].kind == Attribute then None else Some(a[id].children)
  }

  /** `children ?? []`. */
  function ChildList(a: Arena, id: NodeId): (r: seq<NodeId>)
    requires WellFormed(a) && id < |a|
    ensures forall j | 0 <= j < |r| :: id < r[j] < |a|
  {
    Children(a, id).GetOr([])
  }

  /** Assigning `parent`: a no-op on a document, whose setter is empty. */
  function WithParent(n: Node, p: Option<NodeId>): (r: Node)
    ensures r.kind == n.kind && r.children == n.children && r.attributes == n.attributes
    ensures r.name == n.name && r.stringValue == n.stringValue
    ensures r.parent == if n.kind == Document then n.parent else p
  {
    if n.kind == Document then n else n.(parent := p)
  }

  /** `ids.forEach { $0.parent = p }`: the arena after every listed node has
      been given parent `p`. */
  function Reparent(a: Arena, ids: seq<NodeId>, p: Option<NodeId>): (r: Arena)
    ensures |r| == |a|
    ensures forall k | 0 <= k < |a| :: r[k] == if k in ids then WithParent(a[k], p) else a[k]
  {
    seq(|a|, k requires 0 <= k < |a| => if k in ids then WithParent(a[k], p) else a[k])
  }

  lemma ReparentWellFormed(a: Arena, ids: seq<NodeId>, p: Option<NodeId>)
    requires WellFormed(a)
    requires p.Some? ==> forall j | 0 <= j < |ids| :: p.value < ids[j]
    ensures WellFormed(Reparent(a, ids, p))
  {
    var r := Reparent(a, ids, p);
    forall i | 0 <= i < |r| ensures NodeOk(r, i) {
      assert NodeOk(a, i);
    }
  }

  /** `r` keeps some of the elements of `s`, in their original order. */
  predicate Subsequence<T(==)>(r: seq<T>, s: seq<T>)
    decreases |s|
  {
    if r == [] then true
    else if s == [] then false
    else (r[0] == s[0] && Subsequence(r[1..], s[1..])) || Subsequence(r, s[1..])
  }

  /** Swift's `filter`. */
  function Filter<T(==)>(s: seq<T>, f: T -> bool): (r: seq<T>)
    ensures forall x | x in r :: x in s && f(x)
    ensures forall x | x in s && f(x) :: x in r
    ensures forall j | 0 <= j < |r| :: r[j] in s && f(r[j])
    ensures Subsequence(r, s)
    ensures |r| <= |s|
  {
    if s == [] then []
    else
      var rest := Filter(s[1..], f);
      if f(s[0]) then
        assert [s[0]] + rest == [s[0]] + rest && ([s[0]] + rest)[1..] == rest;
        [s[0]] + rest
      else
        assert Subsequence(rest, s[1..]);
        rest
  }

  /** Swift's `first(where:)`: the earliest element satisfying `f`. */
  function FirstWhere<T(==)>(s: seq<T>, f: T -> bool): (r: Option<T>)
    ensures r.None? <==> forall x | x in s :: !f(x)
    ensures r.Some? ==> r.value in s && f(r.value)
  {
    if s == [] then None
    else if f(s[0]) then Some(s[0])
    else FirstWhere(s[1..], f)
  }

  /** `first(where:)` is the head of `filter`. */
  lemma {:induction false} FirstWhereIsFilterHead<T>(s: seq<T>, f: T -> bool)
    ensures FirstWhere(s, f) == if Filter(s, f) == [] then None else Some(Filter(s, f)[0])
  {
    if s != [] && !f(s[0]) {
      FirstWhereIsFilterHead(s[1..], f);
    }
  }

  lemma {:induction false} FilterKeepsAll<T>(s: seq<T>, f: T -> bool)
    requires forall x | x in s :: f(x)
    ensures Filter(s, f) == s
  {
    if s != [] {
      FilterKeepsAll(s[1..], f);
    }
  }
}
