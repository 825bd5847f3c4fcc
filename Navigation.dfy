/** The read-only accessors of `XMLNode`, `XMLDocument` and `XMLElement`:
    `rootDocument`, `level`, `xPath`, the index-path getter,
    `flattendChildren`, the name subscripts, `rootElement`,
    `attribute(forName:)`, and the index-path getter of `_XMLNode`. */
module XmlNavigation {
  import opened XmlNodes
  import opened Strings

  /** `rootDocument`: `parent?.rootDocument ?? (parent as? XMLDocument)`. */
  function RootDocument(a: Arena, id: NodeId): (r: Option<NodeId>)
    requires WellFormed(a) && id < |a|
    ensures r.Some? ==> r.value < id && a[r.value].kind == Document
    decreases id
  {
    match Parent(a, id)
    case None => None
    case Some(p) =>
      var up := RootDocument(a, p);
      if up.Some? then up
      else if a[p].kind == Document then Some(p)
      else None
  }

  /** The end of the parent chain starting at `id`. */
  function Top(a: Arena, id: NodeId): (r: NodeId)
    requires WellFormed(a) && id < |a|
    ensures r <= id && Parent(a, r) == None
    decreases id
  {
    match Parent(a, id)
    case None => id
    case Some(p) => Top(a, p)
  }

  /** `rootDocument` is the top of the parent chain, provided that top is a
      document other than the node itself; otherwise it is nil. */
  lemma {:induction false} RootDocumentIsTop(a: Arena, id: NodeId)
    requires WellFormed(a) && id < |a|
    ensures RootDocument(a, id) ==
      (var t := Top(a, id); if t != id && a[t].kind == Document then Some(t) else None)
    decreases id
  {
    match Parent(a, id)
    case None =>
    case Some(p) =>
      RootDocumentIsTop(a, p);
  }

  /** `level`: 0 for a document, for a node without parent and for a node
      whose parent is its root document; otherwise one more than the
      parent's level. */
  function Level(a: Arena, id: NodeId): (r: nat)
    requires WellFormed(a) && id < |a|
    ensures a[id].kind == Document ==> r == 0
    ensures r <= Depth(a, id)
    decreases id
  {
    if a[id].kind == Document then 0
    else
      match Parent(a, id)
      case None => 0
      case Some(p) => if Some(p) != RootDocument(a, id) then Level(a, p) + 1 else 0
  }

  /** The number of parent steps from `id` to the top of its chain. */
  function Depth(a: Arena, id: NodeId): (r: nat)
    requires WellFormed(a) && id < |a|
    ensures r <= id
    ensures r == 0 <==> Parent(a, id).None?
    decreases id
  {
    match Parent(a, id)
    case None => 0
    case Some(p) => Depth(a, p) + 1
  }

  /** `level` counts the ancestors of a node, not counting its root
      document when it has one. */
  lemma {:induction false} LevelCountsAncestors(a: Arena, id: NodeId)
    requires WellFormed(a) && id < |a|
    ensures Level(a, id) == Depth(a, id) - (if RootDocument(a, id).Some? then 1 else 0)
    decreases id
  {
    match Parent(a, id)
    case None =>
    case Some(p) =>
      LevelCountsAncestors(a, p);
      if a[p].kind == Document {
        assert Parent(a, p).None?;
      }
  }

  /** `xPath`: only elements have one; it is nil without a name or a parent,
      and otherwise the parent's path (or "") followed by "/" and the name. */
  function XPath(a: Arena, id: NodeId): (r: Option<string>)
    requires WellFormed(a) && id < |a|
    ensures r.Some? <==> a[id].kind == Element && a[id].name.Some? && Parent(a, id).Some?
    ensures r.Some? ==> |r.value| > 0 && r.value[0] == '/'
    decreases id
  {
    if a[id].kind != Element then None
    else
      match a[id].name
      case None => None
      case Some(n) =>
        match Parent(a, id)
        case None => None
        case Some(p) => Some(XPath(a, p).GetOr("") + "/" + n)
  }

  /** `id` is an element whose parent chain consists of named elements
      (names without '/') up to a document. */
  predicate ElementChain(a: Arena, id: NodeId)
    requires WellFormed(a) && id < |a|
    decreases id
  {
    && a[id].kind == Element
    && a[id].name.Some? && IsPiece(a[id].name.value, '/')
    && match Parent(a, id)
       case None => false
       case Some(p) => a[p].kind == Document || ElementChain(a, p)
  }

  /** The names along an element chain, from the root element down. */
  function ChainNames(a: Arena, id: NodeId): (r: seq<string>)
    requires WellFormed(a) && id < |a| && ElementChain(a, id)
    ensures r != []
    decreases id
  {
    var p := Parent(a, id).value;
    (if a[p].kind == Document then [] else ChainNames(a, p)) + [a[id].name.value]
  }

  /** Along an element chain, `xPath` spells out the element names from the
      root element down, one '/'-segment per level: the root element is at
      level 0 and its path has one segment. */
  lemma {:induction false} XPathFollowsLevel(a: Arena, id: NodeId)
    requires WellFormed(a) && id < |a| && ElementChain(a, id)
    ensures RootDocument(a, id).Some?
    ensures XPath(a, id).Some?
    ensures Split(XPath(a, id).value, '/') == ChainNames(a, id)
    ensures |ChainNames(a, id)| == Level(a, id) + 1
    decreases id
  {
    var p := Parent(a, id).value;
    var n := a[id].name.value;
    if a[p].kind == Document {
      assert RootDocument(a, p) == None;
      assert XPath(a, p) == None;
      assert XPath(a, id).value == "" + "/" + n == [] + ['/'] + n;
      SplitSnoc([], n, '/');
    } else {
      XPathFollowsLevel(a, p);
      var s := XPath(a, p).value;
      assert XPath(a, id).value == s + "/" + n == s + ['/'] + n;
      SplitSnoc(s, n, '/');
      assert RootDocument(a, id) == RootDocument(a, p);
    }
  }

  /** The `subscript(indexPath:)` getter of `XMLNode`: descend one child
      index at a time; nil as soon as a node has no children list or the
      index is past its end. */
  function Get(a: Arena, id: NodeId, path: seq<nat>): (r: Option<NodeId>)
    requires WellFormed(a) && id < |a|
    ensures r.Some? ==> r.value < |a|
    ensures r.Some? && path != [] ==> id < r.value
    decreases |path|
  {
    if path == [] then Some(id)
    else
      match Children(a, id)
      case None => None
      case Some(cs) =>
        if path[0] >= |cs| then None
        else Get(a, cs[path[0]], path[1..])
  }

  /** One more index on the path selects that child of the node the path
      led to. */
  lemma {:induction false} GetAppend(a: Arena, id: NodeId, path: seq<nat>, i: nat)
    requires WellFormed(a) && id < |a|
    ensures Get(a, id, path + [i]) ==
      match Get(a, id, path)
      case None => None
      case Some(t) =>
        match Children(a, t)
        case None => None
        case Some(cs) => if i < |cs| then Some(cs[i]) else None
    decreases |path|
  {
    if path == [] {
      assert [] + [i] == [i];
      assert [i][1..] == [];
    } else {
      assert (path + [i])[0] == path[0];
      assert (path + [i])[1..] == path[1..] + [i];
      match Children(a, id)
      case None =>
      case Some(cs) =>
        if path[0] < |cs| {
          GetAppend(a, cs[path[0]], path[1..], i);
        }
    }
  }

  /** A path that resolves still resolves when its last index is dropped. */
  lemma GetPrefix(a: Arena, id: NodeId, path: seq<nat>)
    requires WellFormed(a) && id < |a| && path != []
    requires Get(a, id, path).Some?
    ensures Get(a, id, path[..|path| - 1]).Some?
  {
    var q := path[..|path| - 1];
    assert path == q + [path[|path| - 1]];
    GetAppend(a, id, q, path[|path| - 1]);
  }

  /** The lookup of `path` only reads the children lists of the nodes it
      passes through before its result `t`; changing other nodes, or the
      children of `t` itself, does not disturb it. */
  lemma {:induction false} GetFrame(a: Arena, b: Arena, id: NodeId, path: seq<nat>, t: NodeId)
    requires WellFormed(a) && WellFormed(b) && id < |a| == |b|
    requires forall k | 0 <= k < |a| && k != t :: Children(a, k) == Children(b, k)
    requires Get(a, id, path) == Some(t)
    ensures Get(b, id, path) == Some(t)
    decreases |path|
  {
    if path != [] {
      assert id != t;
      var cs := Children(a, id).value;
      GetFrame(a, b, cs[path[0]], path[1..], t);
    }
  }

  /** Lookups survive growth of the arena and any change to nodes allocated
      after their result: every node a path passes through was allocated
      before the node it leads to. */
  lemma {:induction false} GetFrameBelow(a: Arena, b: Arena, id: NodeId, path: seq<nat>, t: NodeId)
    requires WellFormed(a) && WellFormed(b) && id < |a| <= |b|
    requires Get(a, id, path) == Some(t)
    requires forall k | 0 <= k < t :: Children(a, k) == Children(b, k)
    ensures Get(b, id, path) == Some(t)
    decreases |path|
  {
    if path != [] {
      var cs := Children(a, id).value;
      GetFrameBelow(a, b, cs[path[0]], path[1..], t);
    }
  }

    /** After a change that leaves every children list but `t`'s alone, a
      path that led to `t` still does, and one more step from it reads `t`'s
      new list. */
  lemma GetAfterListChange(a: Arena, b: Arena, id: NodeId, prefix: seq<nat>, t: NodeId, j: nat)
    requires WellFormed(a) && WellFormed(b) && id < |a| == |b|
    requires forall k | 0 <= k < |a| && k != t :: Children(a, k) == Children(b, k)
    requires Get(a, id, prefix) == Some(t)
    ensures Get(b, id, prefix) == Some(t)
    ensures Get(b, id, prefix + [j]) ==
      match Children(b, t)
      case None => None
      case Some(cs) => if j < |cs| then Some(cs[j]) else None
  {
    GetFrame(a, b, id, prefix, t);
    GetAppend(b, id, prefix, j);
  }

/** `flattendChildren`: nil without a children list, otherwise every
      child followed by its own flattened children, left to right. */
  function Flattened(a: Arena, id: NodeId): (r: Option<seq<NodeId>>)
    requires WellFormed(a) && id < |a|
    ensures r.Some? <==> Children(a, id).Some?
    ensures r.Some? ==> forall x | x in r.value :: id < x < |a|
    ensures r.Some? ==> forall j | 0 <= j < |r.value| :: id < r.value[j] < |a|
    decreases |a| - id, 1
  {
    match Children(a, id)
    case None => None
    case Some(cs) => Some(FlattenList(a, id, cs))
  }

  /** `cs.flatMap { [$0] + ($0.flattendChildren ?? []) }` for children `cs`
      of `id`. */
  function FlattenList(a: Arena, id: NodeId, cs: seq<NodeId>): (r: seq<NodeId>)
    requires WellFormed(a) && id < |a|
    requires forall j | 0 <= j < |cs| :: id < cs[j] < |a|
    ensures forall x | x in r :: id < x < |a|
    ensures forall j | 0 <= j < |r| :: id < r[j] < |a|
    decreases |a| - id, 0, |cs|
  {
    if cs == [] then []
    else [cs[0]] + Flattened(a, cs[0]).GetOr([]) + FlattenList(a, id, cs[1..])
  }

  lemma {:induction false} FlattenListHas(a: Arena, id: NodeId, cs: seq<NodeId>, j: nat, x: NodeId)
    requires WellFormed(a) && id < |a|
    requires forall j | 0 <= j < |cs| :: id < cs[j] < |a|
    requires j < |cs|
    requires x == cs[j] || (Flattened(a, cs[j]).Some? && x in Flattened(a, cs[j]).value)
    ensures x in FlattenList(a, id, cs)
    decreases j
  {
    if j > 0 {
      FlattenListHas(a, id, cs[1..], j - 1, x);
    }
  }

  /** Every node a non-empty index path reaches is in `flattendChildren`. */
  lemma {:induction false} FlattenedComplete(a: Arena, id: NodeId, path: seq<nat>)
    requires WellFormed(a) && id < |a| && path != []
    requires Get(a, id, path).Some?
    ensures Flattened(a, id).Some? && Get(a, id, path).value in Flattened(a, id).value
    decreases |path|
  {
    var cs := Children(a, id).value;
    var c := cs[path[0]];
    if |path| > 1 {
      FlattenedComplete(a, c, path[1..]);
    }
    FlattenListHas(a, id, cs, path[0], Get(a, id, path).value);
  }

  lemma {:induction false} FlattenListMember(a: Arena, id: NodeId, cs: seq<NodeId>, x: NodeId) returns (j: nat)
    requires WellFormed(a) && id < |a|
    requires forall j | 0 <= j < |cs| :: id < cs[j] < |a|
    requires x in FlattenList(a, id, cs)
    ensures j < |cs|
    ensures x == cs[j] || (Flattened(a, cs[j]).Some? && x in Flattened(a, cs[j]).value)
    decreases |cs|
  {
    if x == cs[0] || (Flattened(a, cs[0]).Some? && x in Flattened(a, cs[0]).value) {
      j := 0;
    } else {
      var j' := FlattenListMember(a, id, cs[1..], x);
      j := j' + 1;
    }
  }

  /** Every node in `flattendChildren` is reached by some non-empty index
      path; with FlattenedComplete, `flattendChildren` holds exactly the
      proper descendants. */
  lemma {:induction false} FlattenedSound(a: Arena, id: NodeId, x: NodeId) returns (path: seq<nat>)
    requires WellFormed(a) && id < |a|
    requires Flattened(a, id).Some? && x in Flattened(a, id).value
    ensures path != [] && Get(a, id, path) == Some(x)
    decreases |a| - id
  {
    var cs := Children(a, id).value;
    var j := FlattenListMember(a, id, cs, x);
    if x == cs[j] {
      path := [j];
      assert Get(a, cs[j], []) == Some(x);
    } else {
      var rest := FlattenedSound(a, cs[j], x);
      path := [j] + rest;
      assert path[1..] == rest;
    }
  }

  /** Array `subscript(name:)`: the nodes of `ids` with exactly that name. */
  function Named(a: Arena, ids: seq<NodeId>, name: Option<string>): (r: seq<NodeId>)
    requires forall c | c in ids :: c < |a|
    ensures forall x | x in r :: x in ids && a[x].name == name
    ensures forall x | x in ids && a[x].name == name :: x in r
    ensures forall j | 0 <= j < |r| :: r[j] < |a|
    ensures Subsequence(r, ids)
  {
    Filter(ids, (c: NodeId) => c < |a| && a[c].name == name)
  }

  /** `XMLNode.subscript(name:)`: the direct children with that name, in
      order; empty when there is no children list. */
  function ChildrenNamed(a: Arena, id: NodeId, name: string): (r: seq<NodeId>)
    requires WellFormed(a) && id < |a|
    ensures forall x | x in r :: x in ChildList(a, id) && a[x].name == Some(name)
    ensures forall x | x in ChildList(a, id) && a[x].name == Some(name) :: x in r
    ensures forall j | 0 <= j < |r| :: r[j] < |a|
    ensures Subsequence(r, ChildList(a, id))
  {
    match Children(a, id)
    case None => []
    case Some(cs) => Named(a, cs, Some(name))
  }

  /** `rootElement` getter: the first element among the children. */
  function RootElement(a: Arena, doc: NodeId): (r: Option<NodeId>)
    requires WellFormed(a) && doc < |a|
    ensures r.Some? ==> r.value in ChildList(a, doc) && a[r.value].kind == Element
    ensures r.None? <==> forall c | c in ChildList(a, doc) :: a[c].kind != Element
    ensures var es := Filter(ChildList(a, doc), (c: NodeId) => c < |a| && a[c].kind == Element);
      r == if es == [] then None else Some(es[0])
  {
    FirstWhereIsFilterHead(ChildList(a, doc), (c: NodeId) => c < |a| && a[c].kind == Element);
    match Children(a, doc)
    case None => None
    case Some(cs) => FirstWhere(cs, (c: NodeId) => c < |a| && a[c].kind == Element)
  }

  /** `attribute(forName:)`: the first attribute with that name. */
  function AttributeNamed(a: Arena, id: NodeId, name: string): (r: Option<NodeId>)
    requires WellFormed(a) && id < |a|
    ensures r.Some? ==> a[id].attributes.Some? && r.value in a[id].attributes.value && a[r.value].name == Some(name)
    ensures r.None? <==> a[id].attributes.None? || forall c | c in a[id].attributes.value :: a[c].name != Some(name)
  {
    assert NodeOk(a, id);
    match a[id].attributes
    case None => None
    case Some(attrs) => FirstWhere(attrs, (c: NodeId) => c < |a| && a[c].name == Some(name))
  }

  /** `attribute(forName:)` answers the first node of `attributes[name]`. */
  lemma AttributeNamedIsFirstOfNamed(a: Arena, id: NodeId, name: string)
    requires WellFormed(a) && id < |a| && a[id].attributes.Some?
    ensures NodeOk(a, id)
    ensures var named := Named(a, a[id].attributes.value, Some(name));
      AttributeNamed(a, id, name) == if named == [] then None else Some(named[0])
  {
    assert NodeOk(a, id);
    FirstWhereIsFilterHead(a[id].attributes.value, (c: NodeId) => c < |a| && a[c].name == Some(name));
  }

  /** The `subscript(indexPath:)` getter of `_XMLNode`: like the `XMLNode`
      getter, except that each step indexes the children that conform to
      `_XMLNode` (here: whose kind is in `conforming`). */
  function ConformingGet(a: Arena, id: NodeId, path: seq<nat>, conforming: set<Kind>): (r: Option<NodeId>)
    requires WellFormed(a) && id < |a| && a[id].kind in conforming
    ensures r.Some? ==> r.value < |a| && a[r.value].kind in conforming
    decreases |path|
  {
    if path == [] then Some(id)
    else
      match Children(a, id)
      case None => None
      case Some(cs) =>
        var ccs := Filter(cs, (c: NodeId) => c < |a| && a[c].kind in conforming);
        if path[0] >= |ccs| then None
        else ConformingGet(a, ccs[path[0]], path[1..], conforming)
  }

  /** Every child of the node conforms to `_XMLNode`, so the `_XMLNode`
      getter indexes the same list as the `XMLNode` one. */
  predicate ChildrenConform(a: Arena, id: NodeId, conforming: set<Kind>)
    requires WellFormed(a) && id < |a|
  {
    forall j | 0 <= j < |ChildList(a, id)| :: a[ChildList(a, id)[j]].kind in conforming
  }

  /** Every node a path visits before its last step has only conforming
      children. */
  predicate PathConforms(a: Arena, id: NodeId, path: seq<nat>, conforming: set<Kind>)
    requires WellFormed(a) && id < |a|
    decreases |path|
  {
    path == [] ||
      (&& ChildrenConform(a, id, conforming)
       && (path[0] < |ChildList(a, id)| ==> PathConforms(a, ChildList(a, id)[path[0]], path[1..], conforming)))
  }

  /** When the children along the path conform, the two getters agree. */
  lemma {:induction false} ConformingGetIsGet(a: Arena, id: NodeId, path: seq<nat>, conforming: set<Kind>)
    requires WellFormed(a) && id < |a| && a[id].kind in conforming
    requires PathConforms(a, id, path, conforming)
    ensures ConformingGet(a, id, path, conforming) == Get(a, id, path)
    decreases |path|
  {
    if path != [] {
      match Children(a, id)
      case None =>
      case Some(cs) =>
        FilterKeepsAll(cs, (c: NodeId) => c < |a| && a[c].kind in conforming);
        if path[0] < |cs| {
          ConformingGetIsGet(a, cs[path[0]], path[1..], conforming);
        }
    }
  }

  /** The node a conforming path leads to, before its last step, has only
      conforming children. */
  lemma {:induction false} PathConformsAt(a: Arena, id: NodeId, prefix: seq<nat>, i: nat, t: NodeId, conforming: set<Kind>)
    requires WellFormed(a) && id < |a|
    requires Get(a, id, prefix) == Some(t) && PathConforms(a, id, prefix + [i], conforming)
    ensures ChildrenConform(a, t, conforming)
    decreases |prefix|
  {
    if prefix != [] {
      var c := ChildList(a, id)[prefix[0]];
      assert (prefix + [i])[1..] == prefix[1..] + [i];
      PathConformsAt(a, c, prefix[1..], i, t, conforming);
    }
  }

  /** A conforming path stays conforming, whatever its last index, when
      only the children list of the node it leads to changes and that list
      still conforms. */
  lemma {:induction false} PathConformsAfterEdit(a: Arena, b: Arena, id: NodeId, prefix: seq<nat>, t: NodeId, i: nat, j: nat, conforming: set<Kind>)
    requires WellFormed(a) && WellFormed(b) && id < |a| == |b|
    requires forall k | 0 <= k < |a| :: b[k].kind == a[k].kind
    requires forall k | 0 <= k < |a| && k != t :: Children(a, k) == Children(b, k)
    requires Get(a, id, prefix) == Some(t) && PathConforms(a, id, prefix + [i], conforming)
    requires ChildrenConform(b, t, conforming)
    ensures PathConforms(b, id, prefix + [j], conforming)
    decreases |prefix|
  {
    if prefix != [] {
      assert id != t;
      assert ChildList(b, id) == ChildList(a, id);
      var c := ChildList(a, id)[prefix[0]];
      assert (prefix + [i])[1..] == prefix[1..] + [i];
      assert (prefix + [j])[1..] == prefix[1..] + [j];
      PathConformsAfterEdit(a, b, c, prefix[1..], t, i, j, conforming);
    }
  }
}
