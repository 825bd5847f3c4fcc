/** The document builder behind `XMLDocument(data:)`: a delegate that receives
    the events of an event-driven XML tokenizer and grows a document tree,
    keeping the index path of the innermost open element. The tokenizer
    itself is not modelled; its callbacks arrive as a sequence of events. */
module XmlBuilder {
  import opened XmlNodes
  import opened XmlNavigation
  import opened XmlTree

  /** An error value reported by the tokenizer; only its identity matters. */
  datatype ErrorValue = ErrorValue(code: nat)

  /** The delegate callbacks the builder implements. Attributes arrive as
      name/value pairs in the order the dictionary yields them. */
  datatype Event =
    | StartDocument
    | ParseError(parseError: ErrorValue)
    | ValidationError(validationError: ErrorValue)
    | EndDocument
    | StartElement(elementName: string, attributeDict: seq<(string, string)>)
    | EndElement(endName: string)
    | Characters(text: string)

  /** The last verdict the callbacks left in `result`. */
  datatype Outcome = Finished | Failed(error: ErrorValue)

  /** What `XMLDocument(data:)` throws: `CocoaError(.featureUnsupported)`
      when no result was ever set, or the tokenizer's own error. */
  datatype DocumentError = FeatureUnsupported | Rethrown(error: ErrorValue)

  // ---------------------------------------------------------------------
  // The bookkeeping the handlers do, as pure functions of the events

  /** The names of the open elements after `events`, outermost first,
      starting from `open`: a start tag opens one, an end tag closes the
      innermost one only when the names agree, a new document closes all.
      None when an end tag arrives with nothing open: the end-tag handler
      then removes the last index of an empty path, which traps. */
  function OpenAfter(events: seq<Event>, open: seq<string>): (r: Option<seq<string>>)
    decreases |events|
  {
    if events == [] then Some(open)
    else
      match events[0]
      case StartDocument => OpenAfter(events[1..], [])
      case StartElement(n, _) => OpenAfter(events[1..], open + [n])
      case EndElement(n) =>
        if open == [] then None
        else if open[|open| - 1] == n then OpenAfter(events[1..], open[..|open| - 1])
        else OpenAfter(events[1..], open)
      case _ => OpenAfter(events[1..], open)
  }

  /** The verdict after `events`, starting from `current`: the last error or
      end-of-document callback decides. */
  function OutcomeAfter(events: seq<Event>, current: Option<Outcome>): (r: Option<Outcome>)
    ensures current.Some? ==> r.Some?
    decreases |events|
  {
    if events == [] then current
    else
      match events[0]
      case ParseError(e) => OutcomeAfter(events[1..], Some(Failed(e)))
      case ValidationError(e) => OutcomeAfter(events[1..], Some(Failed(e)))
      case EndDocument => OutcomeAfter(events[1..], Some(Finished))
      case _ => OutcomeAfter(events[1..], current)
  }

  /** `main()`: the verdict of the callbacks, or the tokenizer's own error
      when no callback gave one. */
  function Settled(events: seq<Event>, parserError: Option<ErrorValue>): (r: Option<Outcome>)
    ensures r.None? <==> OutcomeAfter(events, None).None? && parserError.None?
    ensures OutcomeAfter(events, None).Some? ==> r == OutcomeAfter(events, None)
  {
    match OutcomeAfter(events, None)
    case Some(o) => Some(o)
    case None => if parserError.Some? then Some(Failed(parserError.value)) else None
  }

  /** The fewest elements open at any point while the builder handles
      `events`, starting from `open`: the part of the index path that no
      callback touches. */
  function Floor(events: seq<Event>, open: seq<string>): (r: nat)
    ensures r <= |open|
    decreases |events|
  {
    if events == [] then |open|
    else
      match events[0]
      case StartDocument => 0
      case StartElement(n, _) => Min(|open|, Floor(events[1..], open + [n]))
      case EndElement(n) =>
        if open == [] then 0
        else if open[|open| - 1] == n then Floor(events[1..], open[..|open| - 1])
        else Floor(events[1..], open)
      case _ => Floor(events[1..], open)
  }

  function Min(x: nat, y: nat): (r: nat)
    ensures r <= x && r <= y && (r == x || r == y)
  {
    if x <= y then x else y
  }

  /** The verdict a `result` records. */
  function Verdict(result: Option<Result<NodeId, ErrorValue>>): (r: Option<Outcome>)
    ensures r == None <==> result == None
    ensures r == Some(Finished) <==> result.Some? && result.value.Success?
    ensures forall e :: r == Some(Failed(e)) <==> result == Some(Failure(e))
  {
    match result
    case None => None
    case Some(Success(_)) => Some(Finished)
    case Some(Failure(e)) => Some(Failed(e))
  }

  /** Only an end tag can make the builder trap. */
  lemma {:induction false} OnlyEndTagsTrap(events: seq<Event>, open: seq<string>)
    requires forall j | 0 <= j < |events| :: !events[j].EndElement?
    ensures OpenAfter(events, open).Some?
    decreases |events|
  {
    if events != [] {
      var next := match events[0]
        case StartDocument => []
        case StartElement(n, _) => open + [n]
        case _ => open;
      assert forall j | 0 <= j < |events[1..]| :: events[1..][j] == events[j + 1];
      OnlyEndTagsTrap(events[1..], next);
    }
  }

  /** Only an error or the end of the document changes the verdict. */
  lemma {:induction false} OnlyVerdictEventsDecide(events: seq<Event>, current: Option<Outcome>)
    requires forall j | 0 <= j < |events| ::
               !events[j].ParseError? && !events[j].ValidationError? && !events[j].EndDocument?
    ensures OutcomeAfter(events, current) == current
    decreases |events|
  {
    if events != [] {
      assert forall j | 0 <= j < |events[1..]| :: events[1..][j] == events[j + 1];
      OnlyVerdictEventsDecide(events[1..], current);
    }
  }

  /** Running a stream is running its first event, then the rest. */
  lemma OpenAfterStep(events: seq<Event>, open: seq<string>)
    requires events != []
    ensures OpenAfter(events, open) ==
      match OpenAfter([events[0]], open)
      case None => None
      case Some(o) => OpenAfter(events[1..], o)
  {
    assert [events[0]][1..] == [];
  }

  lemma OutcomeAfterStep(events: seq<Event>, current: Option<Outcome>)
    requires events != []
    ensures OutcomeAfter(events, current) == OutcomeAfter(events[1..], OutcomeAfter([events[0]], current))
  {
    assert [events[0]][1..] == [];
  }

  // ---------------------------------------------------------------------
  // The tree a start tag leaves behind

  function ElementNode(name: string): (r: Node)
  {
    Node(Element, None, [], None, Some(name), None)
  }

  function AttributeNode(attribute: (string, string)): (r: Node)
  {
    Node(Attribute, None, [], None, Some(attribute.0), Some(attribute.1))
  }

  function AttributeNodes(attributes: seq<(string, string)>): (r: seq<Node>)
    ensures |r| == |attributes|
    ensures forall j | 0 <= j < |r| :: r[j] == AttributeNode(attributes[j])
  {
    seq(|attributes|, j requires 0 <= j < |attributes| => AttributeNode(attributes[j]))
  }

  /** The ids `from`, `from + 1`, ..., `from + n - 1`. */
  function Span(from: nat, n: nat): (r: seq<NodeId>)
    ensures |r| == n
    ensures forall j | 0 <= j < n :: r[j] == from + j
  {
    seq(n, j requires 0 <= j < n => from + j)
  }

  /** The fresh element, then one fresh node per attribute, each with its
      name and value and no parent yet. */
  function Allocated(a: Arena, name: string, attributes: seq<(string, string)>): (r: Arena)
    requires WellFormed(a)
    ensures |r| == |a| + 1 + |attributes| && WellFormed(r)
    ensures r[..|a|] == a && r[|a|] == ElementNode(name)
    ensures forall j | 0 <= j < |attributes| :: r[|a| + 1 + j] == AttributeNode(attributes[j])
  {
    var r := a + [ElementNode(name)] + AttributeNodes(attributes);
    assert forall k | 0 <= k < |r| :: NodeOk(r, k) by {
      forall k | 0 <= k < |r| ensures NodeOk(r, k) {
        if k < |a| {
          assert NodeOk(a, k);
        }
      }
    }
    r
  }

  /** The fresh element with its attribute nodes assigned to it. */
  function Prepared(a: Arena, name: string, attributes: seq<(string, string)>): (r: Arena)
    requires WellFormed(a)
    ensures |r| == |a| + 1 + |attributes| && WellFormed(r)
  {
    AttributesAssigned(Allocated(a, name, attributes), |a|, Some(Span(|a| + 1, |attributes|)))
  }

  /** A start tag under the open node `t`: the element is allocated, its
      attributes assigned, and it is appended to `t`'s children. */
  function Opened(a: Arena, t: NodeId, name: string, attributes: seq<(string, string)>): (r: Arena)
    requires WellFormed(a) && t < |a|
    ensures |r| == |a| + 1 + |attributes| && WellFormed(r)
  {
    Added(Prepared(a, name, attributes), t, |a|)
  }

  lemma PreparedOld(a: Arena, name: string, attributes: seq<(string, string)>, k: NodeId)
    requires WellFormed(a) && k < |a|
    ensures Prepared(a, name, attributes)[k] == a[k]
  {
    var b := Allocated(a, name, attributes);
    var ids := Span(|a| + 1, |attributes|);
    assert b[k] == b[..|a|][k];
    assert k !in ids;
    AttributesAssignedUntouched(b, |a|, ids, k);
  }

  lemma PreparedElement(a: Arena, name: string, attributes: seq<(string, string)>)
    requires WellFormed(a)
    ensures Prepared(a, name, attributes)[|a|]
              == Node(Element, None, [], Some(Span(|a| + 1, |attributes|)), Some(name), None)
  {
    var b := Allocated(a, name, attributes);
    var ids := Span(|a| + 1, |attributes|);
    assert |a| !in ids;
    AttributesAssignedEffect(b, |a|, Some(ids), |a|);
  }

  lemma PreparedAttribute(a: Arena, name: string, attributes: seq<(string, string)>, j: nat)
    requires WellFormed(a) && j < |attributes|
    ensures Prepared(a, name, attributes)[|a| + 1 + j]
              == Node(Attribute, Some(|a|), [], None, Some(attributes[j].0), Some(attributes[j].1))
  {
    var b := Allocated(a, name, attributes);
    var ids := Span(|a| + 1, |attributes|);
    var k := |a| + 1 + j;
    assert ids[j] == k;
    AttributesAssignedEffect(b, |a|, Some(ids), k);
  }

  /** The nodes that existed before a start tag, other than the open node,
      are left alone. */
  lemma OpenedOld(a: Arena, t: NodeId, name: string, attributes: seq<(string, string)>, k: NodeId)
    requires WellFormed(a) && t < |a| && k < |a| && k != t
    ensures Opened(a, t, name, attributes)[k] == a[k]
  {
    PreparedOld(a, name, attributes, k);
    AddedFrame(Prepared(a, name, attributes), t, |a|, k);
  }

  /** The open node gains the new element at the end of its children. */
  lemma OpenedTarget(a: Arena, t: NodeId, name: string, attributes: seq<(string, string)>)
    requires WellFormed(a) && t < |a|
    ensures Opened(a, t, name, attributes)[t] == a[t].(children := a[t].children + [|a|])
  {
    PreparedOld(a, name, attributes, t);
    AddedFrame(Prepared(a, name, attributes), t, |a|, t);
  }

  /** A node that is neither the element nor one of the attributes involved
      is left alone by an attribute assignment to a node with no attributes
      yet. */
  lemma AttributesAssignedUntouched(a: Arena, e: NodeId, ids: seq<NodeId>, k: NodeId)
    requires WellFormed(a) && e < |a| && a[e].kind == Element && a[e].attributes == None
    requires forall j | 0 <= j < |ids| :: e < ids[j] < |a|
    requires k < |a| && k != e && k !in ids
    ensures AttributesAssigned(a, e, Some(ids))[k] == a[k]
  {
  }

  /** The new element hangs under `t`, has no children, and owns the new
      attribute nodes. */
  lemma OpenedElement(a: Arena, t: NodeId, name: string, attributes: seq<(string, string)>)
    requires WellFormed(a) && t < |a|
    ensures Opened(a, t, name, attributes)[|a|]
              == Node(Element, Some(t), [], Some(Span(|a| + 1, |attributes|)), Some(name), None)
  {
    PreparedElement(a, name, attributes);
    AddedFrame(Prepared(a, name, attributes), t, |a|, |a|);
  }

  /** Each attribute of the start tag becomes a node with its name and value
      whose parent is the new element. */
  lemma OpenedAttribute(a: Arena, t: NodeId, name: string, attributes: seq<(string, string)>, j: nat)
    requires WellFormed(a) && t < |a| && j < |attributes|
    ensures Opened(a, t, name, attributes)[|a| + 1 + j]
              == Node(Attribute, Some(|a|), [], None, Some(attributes[j].0), Some(attributes[j].1))
  {
    PreparedAttribute(a, name, attributes, j);
    AddedFrame(Prepared(a, name, attributes), t, |a|, |a| + 1 + j);
  }

  // ---------------------------------------------------------------------
  // The open elements along the index path

  /** `open` lists the elements the index path `cursor` passes through below
      the document, outermost first: named elements, allocated in that
      order. */
  predicate Tracks(a: Arena, doc: NodeId, cursor: seq<nat>, open: seq<NodeId>)
    requires WellFormed(a) && doc < |a|
  {
    && |open| == |cursor|
    && (forall j | 0 <= j < |open| :: open[j] < |a| && a[open[j]].kind == Element && a[open[j]].name.Some?)
    && (forall j | 0 <= j < |open| :: Get(a, doc, cursor[..j + 1]) == Some(open[j]))
    && (forall i, j | 0 <= i < j < |open| :: open[i] < open[j])
  }

  /** `xmlDocument[xmlDocumentCurrentIndexPath]`: the innermost open element,
      or the document when nothing is open. */
  function Innermost(a: Arena, doc: NodeId, cursor: seq<nat>, open: seq<NodeId>): (r: NodeId)
    requires WellFormed(a) && doc < |a| && a[doc].kind == Document && Tracks(a, doc, cursor, open)
    ensures r < |a| && a[r].kind != Attribute
    ensures Get(a, doc, cursor) == Some(r)
    ensures forall j | 0 <= j < |open| :: open[j] <= r
  {
    if cursor == [] then doc
    else
      assert cursor[..|open|] == cursor;
      open[|open| - 1]
  }

  /** The names of the open elements, outermost first. */
  function NamesOf(a: Arena, open: seq<NodeId>): (r: seq<string>)
    requires forall j | 0 <= j < |open| :: open[j] < |a| && a[open[j]].name.Some?
    ensures |r| == |open|
    ensures forall j | 0 <= j < |open| :: Some(r[j]) == a[open[j]].name
  {
    seq(|open|, j requires 0 <= j < |open| => a[open[j]].name.value)
  }

  /** A start tag keeps the open elements where they were and adds the new
      element, reached by the index one past the old last child. */
  lemma OpenedTracks(a: Arena, doc: NodeId, cursor: seq<nat>, open: seq<NodeId>, name: string, attributes: seq<(string, string)>)
    requires WellFormed(a) && doc < |a| && a[doc].kind == Document && Tracks(a, doc, cursor, open)
    ensures var t := Innermost(a, doc, cursor, open);
      var r := Opened(a, t, name, attributes);
      && r[doc].kind == Document
      && Tracks(r, doc, cursor + [|ChildList(a, t)|], open + [|a|])
  {
    var t := Innermost(a, doc, cursor, open);
    var r := Opened(a, t, name, attributes);
    var c := cursor + [|ChildList(a, t)|];
    var o := open + [|a|];
    if doc != t {
      OpenedOld(a, t, name, attributes, doc);
    } else {
      OpenedTarget(a, t, name, attributes);
    }
    OpenedKeepsKinds(a, doc, cursor, open, name, attributes);
    OpenedKeepsPaths(a, doc, cursor, open, name, attributes);
  }

  lemma OpenedKeepsKinds(a: Arena, doc: NodeId, cursor: seq<nat>, open: seq<NodeId>, name: string, attributes: seq<(string, string)>)
    requires WellFormed(a) && doc < |a| && a[doc].kind == Document && Tracks(a, doc, cursor, open)
    ensures var r := Opened(a, Innermost(a, doc, cursor, open), name, attributes);
      var o := open + [|a|];
      forall j | 0 <= j < |o| :: o[j] < |r| && r[o[j]].kind == Element && r[o[j]].name.Some?
  {
    forall j | 0 <= j < |open| + 1 {
      OpenedKeepsOpen(a, doc, cursor, open, name, attributes, j);
    }
  }

  lemma OpenedKeepsPaths(a: Arena, doc: NodeId, cursor: seq<nat>, open: seq<NodeId>, name: string, attributes: seq<(string, string)>)
    requires WellFormed(a) && doc < |a| && a[doc].kind == Document && Tracks(a, doc, cursor, open)
    ensures var t := Innermost(a, doc, cursor, open);
      var r := Opened(a, t, name, attributes);
      var c := cursor + [|ChildList(a, t)|];
      var o := open + [|a|];
      forall j | 0 <= j < |o| :: Get(r, doc, c[..j + 1]) == Some(o[j])
  {
    forall j | 0 <= j < |open| + 1 {
      OpenedKeepsOpen(a, doc, cursor, open, name, attributes, j);
    }
  }

  /** The open elements keep their names and the new one is named by the
      start tag. */
  lemma OpenedNames(a: Arena, doc: NodeId, cursor: seq<nat>, open: seq<NodeId>, name: string, attributes: seq<(string, string)>)
    requires WellFormed(a) && doc < |a| && a[doc].kind == Document && Tracks(a, doc, cursor, open)
    ensures var r := Opened(a, Innermost(a, doc, cursor, open), name, attributes);
      && (forall j | 0 <= j < |open| + 1 :: (open + [|a|])[j] < |r| && r[(open + [|a|])[j]].name.Some?)
      && NamesOf(r, open + [|a|]) == NamesOf(a, open) + [name]
  {
    var r := Opened(a, Innermost(a, doc, cursor, open), name, attributes);
    forall j | 0 <= j < |open| + 1
      ensures (open + [|a|])[j] < |r| && r[(open + [|a|])[j]].name == (if j < |open| then a[open[j]].name else Some(name))
    {
      OpenedKeepsOpen(a, doc, cursor, open, name, attributes, j);
    }
  }

  lemma OpenedKeepsOpen(a: Arena, doc: NodeId, cursor: seq<nat>, open: seq<NodeId>, name: string, attributes: seq<(string, string)>, j: nat)
    requires WellFormed(a) && doc < |a| && a[doc].kind == Document && Tracks(a, doc, cursor, open)
    requires j <= |open|
    ensures var t := Innermost(a, doc, cursor, open);
      var r := Opened(a, t, name, attributes);
      var o := open + [|a|];
      && o[j] < |r| && r[o[j]].kind == Element
      && r[o[j]].name == (if j < |open| then a[open[j]].name else Some(name))
      && Get(r, doc, (cursor + [|ChildList(a, t)|])[..j + 1]) == Some(o[j])
  {
    var t := Innermost(a, doc, cursor, open);
    var r := Opened(a, t, name, attributes);
    var c := cursor + [|ChildList(a, t)|];
    forall k | 0 <= k < t ensures Children(a, k) == Children(r, k) {
      OpenedOld(a, t, name, attributes, k);
    }
    if j < |open| {
      assert c[..j + 1] == cursor[..j + 1];
      GetFrameBelow(a, r, doc, cursor[..j + 1], open[j]);
      if open[j] != t {
        OpenedOld(a, t, name, attributes, open[j]);
      } else {
        OpenedTarget(a, t, name, attributes);
      }
    } else {
      assert c[..j + 1] == cursor + [|ChildList(a, t)|];
      GetFrameBelow(a, r, doc, cursor, t);
      OpenedTarget(a, t, name, attributes);
      GetAppend(r, doc, cursor, |ChildList(a, t)|);
      OpenedElement(a, t, name, attributes);
    }
  }

  /** Text only touches a string value: the open elements, their names and
      the paths to them are as before. */
  lemma TextKeepsTracks(a: Arena, doc: NodeId, cursor: seq<nat>, open: seq<NodeId>, c: NodeId, text: string)
    requires WellFormed(a) && doc < |a| && a[doc].kind == Document && Tracks(a, doc, cursor, open)
    requires c < |a| && a[c].kind != Document
    ensures var r := a[c := a[c].(stringValue := Some(text))];
      && WellFormed(r) && r[doc].kind == Document
      && Tracks(r, doc, cursor, open)
      && NamesOf(r, open) == NamesOf(a, open)
  {
    var r := a[c := a[c].(stringValue := Some(text))];
    assert WellFormed(r) by {
      forall k | 0 <= k < |r| ensures NodeOk(r, k) {
        assert NodeOk(a, k);
      }
    }
    forall k | 0 <= k < |a| ensures Children(a, k) == Children(r, k) {
    }
    forall j | 0 <= j < |open| ensures Get(r, doc, cursor[..j + 1]) == Some(open[j]) {
      GetFrameBelow(a, r, doc, cursor[..j + 1], open[j]);
    }
    assert NamesOf(r, open) == NamesOf(a, open);
  }

  // ---------------------------------------------------------------------
  // `_XMLParser`

  class XmlParser {
    /** The arena every node the builder creates lives in. */
    const tree: Tree
    /** `xmlDocument`. */
    var document: NodeId
    /** `xmlDocumentCurrentIndexPath`: the index path of the innermost open
        element below the document. */
    var cursor: seq<nat>
    var isNodeOpened: bool
    var result: Option<Result<NodeId, ErrorValue>>
    /** The open elements along `cursor`, outermost first. */
    ghost var open: seq<NodeId>

    ghost predicate Valid()
      reads this, tree
    {
      && tree.Valid()
      && document < |tree.nodes| && tree.nodes[document].kind == Document
      && Tracks(tree.nodes, document, cursor, open)
      && (result.Some? && result.value.Success? ==>
            result.value.value < |tree.nodes| && tree.nodes[result.value.value].kind == Document)
    }

    ghost function Current(): (r: NodeId)
      requires Valid()
      reads this, tree
      ensures r < |tree.nodes| && tree.nodes[r].kind != Attribute
      ensures Get(tree.nodes, document, cursor) == Some(r)
    {
      Innermost(tree.nodes, document, cursor, open)
    }

    ghost function OpenNames(): (r: seq<string>)
      requires Valid()
      reads this, tree
      ensures |r| == |cursor|
    {
      NamesOf(tree.nodes, open)
    }

    /** The parser with its lazily created, still empty document. */
    constructor (tree: Tree)
      requires tree.Valid()
      modifies tree
      ensures Valid() && this.tree == tree
      ensures cursor == [] && !isNodeOpened && result == None
      ensures tree.nodes == old(tree.nodes) + [Node(Document, None, [], None, None, None)]
      ensures document == |old(tree.nodes)|
    {
      this.tree := tree;
      var d := tree.NewNode(Document);
      document := d;
      cursor := [];
      isNodeOpened := false;
      result := None;
      open := [];
    }

    /** `parserDidStartDocument`: a fresh document, nothing open. */
    method DidStartDocument()
      requires Valid()
      modifies this, tree
      ensures Valid()
      ensures tree.nodes == old(tree.nodes) + [Node(Document, None, [], None, None, None)]
      ensures document == |old(tree.nodes)| && cursor == [] && open == []
      ensures isNodeOpened == old(isNodeOpened) && result == old(result)
    {
      var d := tree.NewNode(Document);
      document := d;
      cursor := [];
      open := [];
    }

    /** `parseErrorOccurred` and `validationErrorOccurred`. */
    method DidFail(e: ErrorValue)
      requires Valid()
      modifies this
      ensures Valid()
      ensures result == Some(Failure(e))
      ensures document == old(document) && cursor == old(cursor) && open == old(open)
      ensures isNodeOpened == old(isNodeOpened)
    {
      result := Some(Failure(e));
    }

    /** `parserDidEndDocument`: the current document is the result. */
    method DidEndDocument()
      requires Valid()
      modifies this
      ensures Valid()
      ensures result == Some(Success(document))
      ensures document == old(document) && cursor == old(cursor) && open == old(open)
      ensures isNodeOpened == old(isNodeOpened)
    {
      result := Some(Success(document));
    }

    /** One entry of the attribute dictionary as a fresh attribute node. */
    method NewAttribute(attribute: (string, string)) returns (id: NodeId)
      requires tree.Valid()
      modifies tree
      ensures tree.Valid()
      ensures id == |old(tree.nodes)|
      ensures tree.nodes == old(tree.nodes) + [AttributeNode(attribute)]
    {
      id := tree.NewNode(Attribute);
      tree.SetName(id, Some(attribute.0));
      tree.SetStringValue(id, Some(attribute.1));
    }

    /** The element `didStartElement` creates, with one attribute node per
        entry of the attribute dictionary. */
    method NewElement(name: string, attributes: seq<(string, string)>) returns (e: NodeId)
      requires tree.Valid()
      modifies tree
      ensures tree.Valid()
      ensures e == |old(tree.nodes)|
      ensures tree.nodes == Prepared(old(tree.nodes), name, attributes)
    {
      ghost var a := tree.nodes;
      e := tree.NewNode(Element);
      tree.SetName(e, Some(name));
      var ids: seq<NodeId> := [];
      var i := 0;
      while i < |attributes|
        invariant 0 <= i <= |attributes|
        invariant tree.Valid()
        invariant tree.nodes == a + [ElementNode(name)] + AttributeNodes(attributes[..i])
        invariant ids == Span(e + 1, i)
      {
        var attribute := NewAttribute(attributes[i]);
        assert AttributeNodes(attributes[..i + 1]) == AttributeNodes(attributes[..i]) + [AttributeNode(attributes[i])] by {
          assert attributes[..i + 1] == attributes[..i] + [attributes[i]];
        }
        ids := ids + [attribute];
        i := i + 1;
      }
      assert attributes[..i] == attributes;
      tree.SetAttributes(e, Some(ids));
    }

    /** `addChild` on the open node, then the index of the new last child is
        pushed on the path. */
    method Attach(target: NodeId, e: NodeId)
      requires tree.Valid() && target < e < |tree.nodes|
      requires tree.nodes[target].kind != Attribute
      requires cursor == [] ==> target == document
      modifies this, tree
      ensures tree.nodes == Added(old(tree.nodes), target, e)
      ensures cursor == old(cursor) + [|old(tree.nodes)[target].children|]
      ensures document == old(document) && open == old(open) && result == old(result)
      ensures isNodeOpened == old(isNodeOpened)
    {
      AddedFrame(tree.nodes, target, e, target);
      if cursor == [] {
        tree.AddChild(document, e);
        cursor := cursor + [|Children(tree.nodes, document).value| - 1];
      } else {
        tree.AddChild(target, e);
        cursor := cursor + [(match Children(tree.nodes, target) case Some(cs) => |cs| case None => 1) - 1];
      }
    }

    /** `didStartElement`: a new element with its attributes is appended to
        the children of the open node and becomes the innermost open
        element. */
    method DidStartElement(name: string, attributes: seq<(string, string)>)
      requires Valid()
      modifies this, tree
      ensures Valid()
      ensures tree.nodes == Opened(old(tree.nodes), old(Current()), name, attributes)
      ensures cursor == old(cursor) + [|ChildList(old(tree.nodes), old(Current()))|]
      ensures Current() == |old(tree.nodes)|
      ensures OpenNames() == old(OpenNames()) + [name]
      ensures isNodeOpened && document == old(document) && result == old(result)
    {
      ghost var a := tree.nodes;
      ghost var c := cursor;
      ghost var o := open;
      ghost var t := Current();
      // The lookup only reads nodes that exist already, so it may as well
      // happen before the new nodes are allocated.
      var target := Get(tree.nodes, document, cursor).value;
      var e := NewElement(name, attributes);
      isNodeOpened := true;
      PreparedOld(a, name, attributes, target);
      Attach(target, e);
      OpenedTracks(a, document, c, o, name, attributes);
      OpenedNames(a, document, c, o, name, attributes);
      open := o + [e];
      if result.Some? && result.value.Success? && result.value.value != target {
        OpenedOld(a, target, name, attributes, result.value.value);
      }
    }

    /** `didEndElement`: the repeat-loop only ever compares the innermost
        open element with the end tag; when they agree one index is dropped
        from the path, otherwise the path is left as it was. */
    method DidEndElement(name: string)
      requires Valid()
      requires cursor != []
      modifies this
      ensures Valid()
      ensures tree.nodes == old(tree.nodes) && document == old(document) && result == old(result)
      ensures !isNodeOpened
      ensures var names := old(OpenNames());
        OpenNames() == if names[|names| - 1] == name then names[..|names| - 1] else names
      ensures var names := old(OpenNames());
        cursor == if names[|names| - 1] == name then old(cursor)[..|old(cursor)| - 1] else old(cursor)
    {
      ghost var names := OpenNames();
      ghost var innermost := open[|open| - 1];
      assert Current() == innermost;
      assert Some(names[|names| - 1]) == tree.nodes[innermost].name;
      isNodeOpened := false;
      var parentPath := cursor;
      while true
        invariant Valid() && cursor == old(cursor) && open == old(open) && !isNodeOpened
        invariant 0 < |parentPath| <= |cursor|
        invariant |parentPath| < |cursor| ==> names[|names| - 1] != name
        decreases |parentPath|
      {
        var current := Get(tree.nodes, document, cursor);
        if current.None? || tree.nodes[current.value].name != Some(name) {
          parentPath := parentPath[..|parentPath| - 1];
          if parentPath == [] {
            break;
          }
        } else {
          cursor := cursor[..|cursor| - (|cursor| - |parentPath| + 1)];
          open := open[..|open| - 1];
          assert Tracks(tree.nodes, document, cursor, open) by {
            forall j | 0 <= j < |open| ensures Get(tree.nodes, document, cursor[..j + 1]) == Some(open[j]) {
              assert cursor[..j + 1] == old(cursor)[..j + 1];
            }
          }
          assert OpenNames() == names[..|names| - 1];
          break;
        }
      }
    }

    /** `stringValue!.append(text)` when there is a string value, otherwise
        `stringValue = text`; the document's setter ignores both. */
    method AppendText(c: NodeId, text: string)
      requires tree.Valid() && c < |tree.nodes|
      modifies tree
      ensures tree.Valid()
      ensures var a := old(tree.nodes);
        tree.nodes == if a[c].kind == Document then a
                      else a[c := a[c].(stringValue := Some(a[c].stringValue.GetOr("") + text))]
    {
      if tree.nodes[c].stringValue.Some? {
        tree.SetStringValue(c, Some(tree.nodes[c].stringValue.value + text));
      } else {
        assert "" + text == text;
        tree.SetStringValue(c, Some(text));
      }
    }

    /** `foundCharacters`: inside an open element the text is appended to the
        string value of the innermost open node (a document ignores it). */
    method FoundCharacters(text: string)
      requires Valid()
      modifies tree
      ensures Valid()
      ensures var c := old(Current()); var a := old(tree.nodes);
        tree.nodes == if isNodeOpened && a[c].kind != Document
                      then a[c := a[c].(stringValue := Some(a[c].stringValue.GetOr("") + text))]
                      else a
      ensures OpenNames() == old(OpenNames())
    {
      ghost var a := tree.nodes;
      ghost var c0 := Current();
      var currentNode := Get(tree.nodes, document, cursor);
      if currentNode.None? || !isNodeOpened {
        return;
      }
      var c := currentNode.value;
      AppendText(c, text);
      if a[c].kind != Document {
        TextKeepsTracks(a, document, cursor, open, c, a[c].stringValue.GetOr("") + text);
      }
    }

    /** One delegate callback. */
    method Dispatch(event: Event)
      requires Valid()
      requires OpenAfter([event], OpenNames()).Some?
      modifies this, tree
      ensures Valid()
      ensures OpenAfter([event], old(OpenNames())) == Some(OpenNames())
      ensures Verdict(result) == OutcomeAfter([event], old(Verdict(result)))
      ensures old(cursor) <= cursor || cursor <= old(cursor)
    {
      if event.StartElement? || event.EndElement? || event.Characters? {
        DispatchMarkup(event);
      } else {
        DispatchDocument(event);
      }
    }

    /** The callbacks for tags and text: they move the cursor and grow the
        tree, and never touch the result. */
    method DispatchMarkup(event: Event)
      requires Valid()
      requires event.StartElement? || event.EndElement? || event.Characters?
      requires OpenAfter([event], OpenNames()).Some?
      modifies this, tree
      ensures Valid()
      ensures OpenAfter([event], old(OpenNames())) == Some(OpenNames())
      ensures result == old(result)
      ensures old(cursor) <= cursor || cursor <= old(cursor)
    {
      ghost var names := OpenNames();
      assert [event][1..] == [];
      match event
      case StartElement(n, attributes) =>
        assert OpenAfter([event], names) == Some(names + [n]);
        DidStartElement(n, attributes);
      case EndElement(n) =>
        assert OpenAfter([event], names) == Some(if names[|names| - 1] == n then names[..|names| - 1] else names);
        DidEndElement(n);
        assert cursor <= old(cursor);
      case Characters(text) =>
        assert OpenAfter([event], names) == Some(names);
        FoundCharacters(text);
    }

    /** The callbacks for the document's start and end and for errors. */
    method DispatchDocument(event: Event)
      requires Valid()
      requires !(event.StartElement? || event.EndElement? || event.Characters?)
      modifies this, tree
      ensures Valid()
      ensures OpenAfter([event], old(OpenNames())) == Some(OpenNames())
      ensures Verdict(result) == OutcomeAfter([event], old(Verdict(result)))
      ensures old(cursor) <= cursor || cursor <= old(cursor)
    {
      match event
      case StartDocument => DidStartDocument();
      case ParseError(e) => DidFail(e);
      case ValidationError(e) => DidFail(e);
      case EndDocument => DidEndDocument();
    }

    /** `parse()`: the tokenizer makes the callbacks for `events` in order.
        The source traps on an end tag with nothing open, so such a stream
        is excluded. The index path keeps the indices of the elements that
        stay open throughout. */
    method Feed(events: seq<Event>)
      requires Valid()
      requires OpenAfter(events, OpenNames()).Some?
      modifies this, tree
      ensures Valid()
      ensures Some(OpenNames()) == OpenAfter(events, old(OpenNames()))
      ensures Verdict(result) == OutcomeAfter(events, old(Verdict(result)))
      ensures var f := Floor(events, old(OpenNames()));
        f <= |old(cursor)| && old(cursor)[..f] <= cursor
    {
      ghost var names, verdict, c0 := OpenNames(), Verdict(result), cursor;
      ghost var floor: nat := |cursor|;
      var i := 0;
      while i < |events|
        invariant 0 <= i <= |events|
        invariant Valid()
        invariant OpenAfter(events[i..], OpenNames()) == OpenAfter(events, names)
        invariant OutcomeAfter(events[i..], Verdict(result)) == OutcomeAfter(events, verdict)
        invariant floor <= |c0| && c0[..floor] <= cursor
        invariant Floor(events, names) == Min(floor, Floor(events[i..], OpenNames()))
        decreases |events| - i
      {
        assert events[i..][1..] == events[i + 1..];
        floor := DispatchNext(events[i..], c0, floor, Floor(events, names));
        i := i + 1;
      }
      assert events[|events|..] == [];
    }

    /** The callback for the first of the remaining events, with the
        bookkeeping `Feed` keeps: what the rest of the stream leads to is
        what the whole stream led to, and the part of the index path that
        no callback has touched so far. */
    method DispatchNext(events: seq<Event>, ghost start: seq<nat>, ghost floor: nat, ghost total: nat)
        returns (ghost floor': nat)
      requires Valid() && events != []
      requires OpenAfter(events, OpenNames()).Some?
      requires floor <= |start| && start[..floor] <= cursor
      requires total == Min(floor, Floor(events, OpenNames()))
      modifies this, tree
      ensures Valid()
      ensures OpenAfter(events[1..], OpenNames()) == OpenAfter(events, old(OpenNames()))
      ensures OutcomeAfter(events[1..], Verdict(result)) == OutcomeAfter(events, old(Verdict(result)))
      ensures floor' <= |start| && start[..floor'] <= cursor
      ensures total == Min(floor', Floor(events[1..], OpenNames()))
    {
      ghost var before, n, v := cursor, OpenNames(), Verdict(result);
      OpenAfterStep(events, n);
      Dispatch(events[0]);
      StreamAdvance(events, n, OpenNames(), v, Verdict(result), total, floor);
      CursorAdvance(start, before, cursor, floor);
      floor' := Min(floor, |cursor|);
    }

    /** `main()`: `parse()`, then the tokenizer's own error when no callback
        left a verdict. After the events of balanced markup the index path
        is the one it was before. */
    method Run(events: seq<Event>, parserError: Option<ErrorValue>)
      requires Valid()
      requires OpenAfter(events, OpenNames()).Some?
      modifies this, tree
      ensures Valid()
      ensures Some(OpenNames()) == OpenAfter(events, old(OpenNames()))
      ensures Verdict(result) == Settled(events, parserError)
      ensures var f := Floor(events, old(OpenNames()));
        f <= |old(cursor)| && old(cursor)[..f] <= cursor
      ensures (exists m :: events == EventsOf(m)) ==> cursor == old(cursor)
    {
      ghost var names := OpenNames();
      result := None;
      Feed(events);
      if result.None? && parserError.Some? {
        result := Some(Failure(parserError.value));
      }
      if exists m :: events == EventsOf(m) {
        var m :| events == EventsOf(m);
        MarkupBalanced(m, names);
        MarkupFloor(m, names);
        assert old(cursor)[..|old(cursor)|] == old(cursor);
      }
    }
  }

  /** `XMLDocument(data:)`: runs a fresh builder over the events; a missing
      verdict becomes `featureUnsupported`, a failure is rethrown, and
      success hands back the document. */
  method ParseDocument(tree: Tree, events: seq<Event>, parserError: Option<ErrorValue>)
      returns (r: Result<NodeId, DocumentError>)
    requires tree.Valid()
    requires OpenAfter(events, []).Some?
    modifies tree
    ensures tree.Valid()
    ensures Settled(events, parserError) == None ==> r == Failure(FeatureUnsupported)
    ensures forall e :: Settled(events, parserError) == Some(Failed(e)) ==> r == Failure(Rethrown(e))
    ensures Settled(events, parserError) == Some(Finished) ==>
              r.Success? && r.value < |tree.nodes| && tree.nodes[r.value].kind == Document
  {
    var parser := new XmlParser(tree);
    assert parser.OpenNames() == [];
    parser.Run(events, parserError);
    match parser.result
    case None => r := Failure(FeatureUnsupported);
    case Some(Success(d)) => r := Success(d);
    case Some(Failure(e)) => r := Failure(Rethrown(e));
  }

  // ---------------------------------------------------------------------
  // Event streams of well-formed markup

  /** Markup as the tokenizer reads it: an element with its attributes and
      content, or a run of text. */
  datatype Markup =
    | Tag(name: string, attributes: seq<(string, string)>, content: seq<Markup>)
    | Text(text: string)

  /** The callbacks the tokenizer makes for a piece of markup: a start tag,
      the content, the matching end tag. */
  function EventsOf(m: Markup): seq<Event>
    decreases m, 1
  {
    match m
    case Text(t) => [Characters(t)]
    case Tag(n, attributes, content) => [StartElement(n, attributes)] + EventsOfAll(content) + [EndElement(n)]
  }

  function EventsOfAll(ms: seq<Markup>): seq<Event>
    decreases ms, 0
  {
    if ms == [] then [] else EventsOf(ms[0]) + EventsOfAll(ms[1..])
  }

  /** The callbacks for a whole document with root element `root`. */
  function DocumentEvents(root: Markup): seq<Event>
  {
    [StartDocument] + EventsOf(root) + [EndDocument]
  }

  lemma {:induction false} OpenAfterAppend(s: seq<Event>, t: seq<Event>, open: seq<string>)
    ensures OpenAfter(s + t, open) ==
      match OpenAfter(s, open)
      case None => None
      case Some(o) => OpenAfter(t, o)
    decreases |s|
  {
    if s == [] {
      assert s + t == t;
    } else {
      assert (s + t)[0] == s[0] && (s + t)[1..] == s[1..] + t;
      match s[0]
      case StartDocument => OpenAfterAppend(s[1..], t, []);
      case StartElement(n, _) => OpenAfterAppend(s[1..], t, open + [n]);
      case EndElement(n) =>
        if open != [] {
          OpenAfterAppend(s[1..], t, open[..|open| - 1]);
          OpenAfterAppend(s[1..], t, open);
        }
      case _ => OpenAfterAppend(s[1..], t, open);
    }
  }

  lemma {:induction false} OutcomeAfterAppend(s: seq<Event>, t: seq<Event>, current: Option<Outcome>)
    ensures OutcomeAfter(s + t, current) == OutcomeAfter(t, OutcomeAfter(s, current))
    decreases |s|
  {
    if s == [] {
      assert s + t == t;
    } else {
      assert (s + t)[0] == s[0] && (s + t)[1..] == s[1..] + t;
      match s[0]
      case ParseError(e) => OutcomeAfterAppend(s[1..], t, Some(Failed(e)));
      case ValidationError(e) => OutcomeAfterAppend(s[1..], t, Some(Failed(e)));
      case EndDocument => OutcomeAfterAppend(s[1..], t, Some(Finished));
      case _ => OutcomeAfterAppend(s[1..], t, current);
    }
  }

  /** Balanced markup closes every element it opens: the builder ends with
      the same open elements it started with, and never traps. */
  lemma {:induction false} MarkupBalanced(m: Markup, open: seq<string>)
    ensures OpenAfter(EventsOf(m), open) == Some(open)
    decreases m, 1
  {
    match m
    case Text(t) =>
    case Tag(n, attributes, content) =>
      var inner := open + [n];
      OpenAfterAppend([StartElement(n, attributes)] + EventsOfAll(content), [EndElement(n)], open);
      OpenAfterAppend([StartElement(n, attributes)], EventsOfAll(content), open);
      MarkupListBalanced(content, inner);
      assert inner[..|inner| - 1] == open;
  }

  lemma {:induction false} MarkupListBalanced(ms: seq<Markup>, open: seq<string>)
    ensures OpenAfter(EventsOfAll(ms), open) == Some(open)
    decreases ms, 0
  {
    if ms != [] {
      OpenAfterAppend(EventsOf(ms[0]), EventsOfAll(ms[1..]), open);
      MarkupBalanced(ms[0], open);
      MarkupListBalanced(ms[1..], open);
    }
  }

  /** Handling one event, then the rest: the fewest open elements over the
      whole stream is the fewer of the count before it and the fewest over
      the rest. */
  lemma FloorStep(events: seq<Event>, open: seq<string>)
    requires events != [] && OpenAfter([events[0]], open).Some?
    ensures Floor(events, open) == Min(|open|, Floor(events[1..], OpenAfter([events[0]], open).value))
  {
    var e, rest := events[0], events[1..];
    assert [e][1..] == [];
    match e
    case StartDocument =>
      assert OpenAfter([e], open) == Some([]);
    case StartElement(n, _) =>
      assert OpenAfter([e], open) == Some(open + [n]);
    case EndElement(n) =>
      var o := if open[|open| - 1] == n then open[..|open| - 1] else open;
      assert OpenAfter([e], open) == Some(o);
      assert Floor(events, open) == Floor(rest, o);
    case ParseError(_) =>
      assert OpenAfter([e], open) == Some(open);
    case ValidationError(_) =>
      assert OpenAfter([e], open) == Some(open);
    case EndDocument =>
      assert OpenAfter([e], open) == Some(open);
    case Characters(_) =>
      assert OpenAfter([e], open) == Some(open);
  }

  /** The bookkeeping of `Feed` for one event: what the rest of the stream
      leads to is what the whole stream led to. */
  lemma StreamAdvance(events: seq<Event>, open: seq<string>, next: seq<string>,
                      current: Option<Outcome>, decided: Option<Outcome>, total: nat, floor: nat)
    requires events != [] && OpenAfter([events[0]], open) == Some(next)
    requires decided == OutcomeAfter([events[0]], current)
    requires floor <= |open| && total == Min(floor, Floor(events, open))
    ensures OpenAfter(events[1..], next) == OpenAfter(events, open)
    ensures OutcomeAfter(events[1..], decided) == OutcomeAfter(events, current)
    ensures total == Min(Min(floor, |next|), Floor(events[1..], next))
  {
    OpenAfterStep(events, open);
    OutcomeAfterStep(events, current);
    FloorAdvance(total, floor, events, open, next);
  }

  /** The fewest open elements seen so far, combined with the fewest over
      the rest of the stream. */
  lemma FloorAdvance(total: nat, floor: nat, events: seq<Event>, open: seq<string>, next: seq<string>)
    requires events != [] && OpenAfter([events[0]], open) == Some(next)
    requires floor <= |open| && total == Min(floor, Floor(events, open))
    ensures total == Min(Min(floor, |next|), Floor(events[1..], next))
  {
    var rest := Floor(events[1..], next);
    FloorStep(events, open);
    assert Floor(events, open) == Min(|open|, rest);
    assert rest <= |next|;
  }

  /** An index path that only grows or shrinks at its end keeps the part
      it shares with the path it started from, up to the fewest indices it
      has held. */
  lemma CursorAdvance(start: seq<nat>, before: seq<nat>, after: seq<nat>, floor: nat)
    requires floor <= |start| && start[..floor] <= before
    requires before <= after || after <= before
    ensures var f := Min(floor, |after|); start[..f] <= after
  {
    var f := Min(floor, |after|);
    assert after[..f] == before[..f];
  }

  lemma {:induction false} FloorAppend(s: seq<Event>, t: seq<Event>, open: seq<string>)
    requires OpenAfter(s, open).Some?
    ensures Floor(s + t, open) == Min(Floor(s, open), Floor(t, OpenAfter(s, open).value))
    decreases |s|
  {
    if s == [] {
      assert s + t == t;
    } else {
      assert (s + t)[0] == s[0] && (s + t)[1..] == s[1..] + t;
      match s[0]
      case StartDocument => FloorAppend(s[1..], t, []);
      case StartElement(n, _) => FloorAppend(s[1..], t, open + [n]);
      case EndElement(n) =>
        if open[|open| - 1] == n {
          FloorAppend(s[1..], t, open[..|open| - 1]);
        } else {
          FloorAppend(s[1..], t, open);
        }
      case _ => FloorAppend(s[1..], t, open);
    }
  }

  /** Balanced markup never closes an element that was open before it. */
  lemma {:induction false} MarkupFloor(m: Markup, open: seq<string>)
    ensures Floor(EventsOf(m), open) == |open|
    decreases m, 1
  {
    match m
    case Text(t) =>
    case Tag(n, attributes, content) =>
      var inner := open + [n];
      var start := [StartElement(n, attributes)];
      MarkupListBalanced(content, inner);
      OpenAfterAppend(start, EventsOfAll(content), open);
      FloorAppend(start + EventsOfAll(content), [EndElement(n)], open);
      FloorAppend(start, EventsOfAll(content), open);
      MarkupListFloor(content, inner);
      assert start[1..] == [];
      assert inner[..|inner| - 1] == open;
      assert [EndElement(n)][1..] == [];
  }

  lemma {:induction false} MarkupListFloor(ms: seq<Markup>, open: seq<string>)
    ensures Floor(EventsOfAll(ms), open) == |open|
    decreases ms, 0
  {
    if ms != [] {
      MarkupBalanced(ms[0], open);
      FloorAppend(EventsOf(ms[0]), EventsOfAll(ms[1..]), open);
      MarkupFloor(ms[0], open);
      MarkupListFloor(ms[1..], open);
    }
  }

  /** Markup itself never reports an error or the end of the document. */
  lemma {:induction false} MarkupSilent(m: Markup, current: Option<Outcome>)
    ensures OutcomeAfter(EventsOf(m), current) == current
    decreases m, 1
  {
    match m
    case Text(t) =>
    case Tag(n, attributes, content) =>
      OutcomeAfterAppend([StartElement(n, attributes)] + EventsOfAll(content), [EndElement(n)], current);
      OutcomeAfterAppend([StartElement(n, attributes)], EventsOfAll(content), current);
      MarkupListSilent(content, current);
  }

  lemma {:induction false} MarkupListSilent(ms: seq<Markup>, current: Option<Outcome>)
    ensures OutcomeAfter(EventsOfAll(ms), current) == current
    decreases ms, 0
  {
    if ms != [] {
      OutcomeAfterAppend(EventsOf(ms[0]), EventsOfAll(ms[1..]), current);
      MarkupSilent(ms[0], current);
      MarkupListSilent(ms[1..], current);
    }
  }

  /** A well-formed document is accepted: the builder does not trap, ends
      with nothing open, and its verdict is success whatever error the
      tokenizer might report afterwards. */
  lemma DocumentAccepted(root: Markup, parserError: Option<ErrorValue>)
    ensures OpenAfter(DocumentEvents(root), []) == Some([])
    ensures Settled(DocumentEvents(root), parserError) == Some(Finished)
  {
    var body := EventsOf(root);
    OpenAfterAppend([StartDocument] + body, [EndDocument], []);
    OpenAfterAppend([StartDocument], body, []);
    MarkupBalanced(root, []);
    OutcomeAfterAppend([StartDocument] + body, [EndDocument], None);
    OutcomeAfterAppend([StartDocument], body, None);
    MarkupSilent(root, None);
  }
}
