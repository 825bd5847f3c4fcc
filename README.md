# RIDIFoundation XML tree, modelled in Dafny

RIDIFoundation ships a small in-memory XML tree under
`Sources/RIDIFoundation/XML/`. This project models its core in Dafny and
proves properties of the model.

The tree has three node classes: `XMLDocument`, `XMLElement` and the
attribute node. Each node holds the following fields:

- a weak `parent`;
- an owned `_children` array;
- a `name` and a `stringValue`;
- for elements only, an `attributes` list.

The library provides:

- **derived reads:** `rootDocument`, `level`, `xPath`, the `subscript(indexPath:)` getter, `flattendChildren`, `subscript(name:)`, `rootElement` and `attribute(forName:)`;
- **in-place edits:** the `children` setter, `insertChild`, `insertChildren`, `removeChild`, `addChild`, the `subscript(indexPath:)` setter, the `rootElement` setter and the `attributes` observers;
- **a second index-path subscript** (`_XMLNode`), whose getter skips non-conforming children and whose setter replaces a child in place rather than inserting;
- **a restricted XPath-like matcher** (`nodes(forXPath:)`), split across the three node classes and `Collection`. It handles "/", "//", "//@", "../", "@name" and `*:local`, and throws `invalidXPath` on a malformed first step;
- **a builder**, `_XMLParser`. It is the delegate of an event-driven tokenizer and grows a document while it keeps the index path of the innermost open element. `XMLDocument(data:)` runs it and turns its result into a document or an error.

## How the model is built

- `Node.dfy` (module `XmlNodes`) holds the data model:
  - the nodes live in an arena, `seq<Node>`, and a node is its index;
  - `WellFormed` is the invariant every edit keeps: parents are allocated before their children and attributes, so parent chains end and every recursion over the tree terminates;
  - the class overrides become per-kind getters: a document has no parent, and an attribute has no children list.
- `Navigation.dfy` (module `XmlNavigation`) holds the read-only accessors as functions.
- `Tree.dfy` (module `XmlTree`) holds the edits. Each edit is specified by a pure function giving the arena afterwards, and lemmas state what those functions guarantee. The class `Tree` owns the arena, and its methods carry out the same edits in place, including the parent-assignment loops.
- `Strings.dfy` (module `Strings`) holds Swift's `split(separator:)` (empty pieces dropped) and `joined(separator:)`.
- `Query.dfy` (module `XmlQuery`) holds the matcher. It is a family of mutually recursive functions, one per override, and a query answers `Result<seq<NodeId>, XmlError>`.
- `Builder.dfy` (module `XmlBuilder`) holds the builder:
  - the builder is a class whose fields are the document, the cursor index path, the open flag and the result;
  - the tokenizer's callbacks arrive as a sequence of `Event`s;
  - pure functions of the event sequence (`OpenAfter`, `OutcomeAfter`, `Settled`) describe what the callbacks do to the open elements and to the verdict, and the methods are proved against them.

Two behaviours of the code are modelled as written, not as an idealised XML API would behave:

- `didEndElement` compares only the innermost open element. Its repeat-loop re-checks the same cursor node on every turn while only a local copy of the path shrinks. So an end tag that does not match the innermost name leaves the cursor where it was.
- Assigning `children` first gives every new child its new parent, then clears the parent of every previously held child. A node in both lists therefore ends with no parent.

## Model

| member | source | states |
|---|---|---|
| XmlNodes.Parent | Sources/RIDIFoundation/XML/XMLDocument.swift:4-7 | a document's parent always reads nil; any other node's parent was allocated before it |
| XmlNodes.Children | Sources/RIDIFoundation/XML/XMLNode.swift:11-14 | the children list exists exactly for documents and elements (an attribute answers nil), and every child was allocated after its container |
| XmlNodes.FirstWhereIsFilterHead | Sources/RIDIFoundation/XML/XMLDocument.swift:15 | `lazy.compactMap{…}.first` picks the head of the filtered list, or nil when that list is empty |
| XmlNodes.WithParent | Sources/RIDIFoundation/XML/XMLDocument.swift:4-7 | assigning `parent` changes that field only, and a document ignores it (its parent stays nil) |
| XmlNodes.Reparent | Sources/RIDIFoundation/XML/XMLNode.swift:17-22 | giving a list of nodes one parent replaces exactly the listed nodes by their copies with that parent (documents ignore it) and leaves every other node as it was |
| XmlNavigation.RootDocument | Sources/RIDIFoundation/XML/XMLNode.swift:4-6 | when present, the root document is a document that was allocated before the node (an index below it) |
| XmlNavigation.RootDocumentIsTop | Sources/RIDIFoundation/XML/XMLNode.swift:4-6 | `rootDocument` is the end of the parent chain when that end is a document other than the node itself, and nil otherwise |
| XmlNavigation.Level | Sources/RIDIFoundation/XML/XMLNode.swift:29-36 | a document is at level 0 (the override at XMLDocument.swift:9-11), and no node's level exceeds the number of parent steps above it |
| XmlNavigation.Depth | Sources/RIDIFoundation/XML/XMLNode.swift:29-36 | the number of parent steps above a node is zero exactly when it has no parent, and never exceeds its index |
| XmlNavigation.LevelCountsAncestors | Sources/RIDIFoundation/XML/XMLNode.swift:29-36 | `level` counts the parent steps up to, but not including, the root document: the number of ancestors minus one when the chain ends in a document, all of them otherwise |
| XmlNavigation.XPath | Sources/RIDIFoundation/XML/XMLElement.swift:26-32 | `xPath` is defined exactly for a named element with a parent, and is then a non-empty string starting with '/' |
| XmlNavigation.XPathFollowsLevel | Sources/RIDIFoundation/XML/XMLElement.swift:26-32 | for an element whose ancestors are named elements up to a document, `xPath` is defined and splitting it on '/' gives the names from the root element down; `level` (XMLNode.swift:29-36) is one less than the number of names, so the root element is at level 0 |
| XmlNavigation.Get | Sources/RIDIFoundation/XML/XMLNode.swift:101-122 | a node reached by a non-empty index path lies in the tree and was allocated after the starting node |
| XmlNavigation.GetAppend | Sources/RIDIFoundation/XML/XMLNode.swift:101-122 | one more index selects that child of the node the path reaches; the answer is nil when there is no children list or the index is not below the child count |
| XmlNavigation.GetPrefix | Sources/RIDIFoundation/XML/XMLNode.swift:101-122 | if a path resolves, then the path without its last index resolves too |
| XmlNavigation.GetFrame | Sources/RIDIFoundation/XML/XMLNode.swift:101-122 | a lookup that resolves keeps its answer when only its target's children list changes |
| XmlNavigation.GetFrameBelow | Sources/RIDIFoundation/XML/XMLNode.swift:101-122 | a lookup that resolves keeps its answer when nodes allocated after its target are added or changed |
| XmlNavigation.GetAfterListChange | Sources/RIDIFoundation/XML/XMLNode.swift:101-122 | after one node's children list changes, a path to that node still resolves, and one more index reads the new list |
| XmlNavigation.Flattened | Sources/RIDIFoundation/XML/XMLNode.swift:146-152 | `flattendChildren` is nil exactly when the node has no children list, and lists only descendants, never the node itself |
| XmlNavigation.FlattenedComplete | Sources/RIDIFoundation/XML/XMLNode.swift:146-152 | every node reachable by a non-empty index path appears in `flattendChildren` |
| XmlNavigation.FlattenedSound | Sources/RIDIFoundation/XML/XMLNode.swift:146-152 | every node in `flattendChildren` is reachable by a non-empty index path |
| XmlNavigation.Named | Sources/RIDIFoundation/XML/XMLNode.swift:168-170 | `Array.subscript(name:)` keeps exactly the nodes with that name, in their original order |
| XmlNavigation.ChildrenNamed | Sources/RIDIFoundation/XML/XMLNode.swift:162-164 | `subscript(name:)` answers exactly the direct children with that name, in order (none for an attribute) |
| XmlNavigation.RootElement | Sources/RIDIFoundation/XML/XMLDocument.swift:14-16 | `rootElement` is the first child of the document that is an element (the head of the document's children filtered to elements), and nil exactly when no child is an element |
| XmlNavigation.AttributeNamed | Sources/RIDIFoundation/XML/XMLElement.swift:53-55 | `attribute(forName:)` answers an attribute of the element with that name, and nil exactly when there is none |
| XmlNavigation.AttributeNamedIsFirstOfNamed | Sources/RIDIFoundation/XML/XMLElement.swift:53-55 | `attribute(forName:)` is the first of the attributes with that name |
| XmlNavigation.ConformingGet | Sources/RIDIFoundation/XML/_XMLNode.swift:8-29 | the `_XMLNode` getter only ever answers conforming nodes |
| XmlNavigation.ConformingGetIsGet | Sources/RIDIFoundation/XML/_XMLNode.swift:8-29 | when the starting node conforms and every node on the path has only conforming children (not the whole tree), the `_XMLNode` getter agrees with the `XMLNode` getter on that path |
| XmlNavigation.PathConformsAt | Sources/RIDIFoundation/XML/_XMLNode.swift:8-29 | the node a conforming path reaches before its last index has only conforming children |
| XmlNavigation.PathConformsAfterEdit | Sources/RIDIFoundation/XML/_XMLNode.swift:8-59 | a conforming path stays conforming, whatever its last index, when only the children list of the node it leads to changes and the new list still conforms |
| XmlTree.AssignChildren | Sources/RIDIFoundation/XML/XMLNode.swift:15-23 | the `children` setter keeps the tree well formed, and changes no node's kind |
| XmlTree.AssignChildrenEffect | Sources/RIDIFoundation/XML/XMLNode.swift:15-23 | the list becomes the new value, or [] for nil; a node previously held loses its parent, even when it is also in the new list; a newly held node gets the container as parent; all other fields are unchanged; documents ignore parent assignment |
| XmlTree.Inserted | Sources/RIDIFoundation/XML/XMLNode.swift:75-85 | `insertChild`/`insertChildren` keep the tree well formed |
| XmlTree.InsertedEffect | Sources/RIDIFoundation/XML/XMLNode.swift:75-85 | the container becomes itself with the old list spliced with the new nodes at `index` (all its other fields unchanged); the list grows by exactly their number and is a permutation of old plus new; each inserted node becomes itself with the container as parent (other fields unchanged); no other node changes |
| XmlTree.InsertedFrame | Sources/RIDIFoundation/XML/XMLNode.swift:75-85 | inserting changes no kind, and changes no node other than the container and the inserted nodes |
| XmlTree.InsertedChildren | Sources/RIDIFoundation/XML/XMLNode.swift:75-85 | after an insert, only the container's children getter answers differently |
| XmlTree.Added | Sources/RIDIFoundation/XML/XMLNode.swift:93-97 | `addChild` keeps the tree well formed |
| XmlTree.AddedFrame | Sources/RIDIFoundation/XML/XMLNode.swift:93-97 | the container becomes itself with the child appended to its list, the child becomes itself with the container as parent (every other field of both unchanged), and no other node changes |
| XmlTree.AddedIsInsertedAtEnd | Sources/RIDIFoundation/XML/XMLNode.swift:93-97 | `addChild(x)` equals `insertChild(x, at: count)` |
| XmlTree.Removed | Sources/RIDIFoundation/XML/XMLNode.swift:87-91 | `removeChild` keeps the tree well formed |
| XmlTree.RemovedEffect | Sources/RIDIFoundation/XML/XMLNode.swift:87-91 | the container becomes itself with exactly the child at `index` removed from its list (it shrinks by one, as a multiset too; other fields unchanged), that child becomes itself with a nil parent, and no other node changes |
| XmlTree.RemoveUndoesInsert | Sources/RIDIFoundation/XML/XMLNode.swift:75-91 | removing at the index just inserted at restores the list, and leaves the node without a parent |
| XmlTree.InsertedThenGet | Sources/RIDIFoundation/XML/XMLNode.swift:75-79 | after `insertChild(x, at: i)` on the node a path reaches, the path still reaches it, and the path extended by `i` reaches `x` |
| XmlTree.InsertedSibling | Sources/RIDIFoundation/XML/XMLNode.swift:75-79 | after inserting at `i`, the sibling at index `j` is the one that was at `j` (when `j < i`) or at `j - 1` (when `j > i`) |
| XmlTree.InsertedShiftsSiblings | Sources/RIDIFoundation/XML/XMLNode.swift:75-79 | after inserting at `i`, earlier siblings keep their index and later ones move one index to the right |
| XmlTree.SetAtLast | Sources/RIDIFoundation/XML/XMLNode.swift:131-140 | the last step of the index-path setter (append at the end, insert elsewhere, remove for nil) keeps the tree well formed |
| XmlTree.SetAtPathThenGet | Sources/RIDIFoundation/XML/XMLNode.swift:123-143 | after assigning a node at an index path, the getter at that path answers that node |
| XmlTree.RootElementAssigned | Sources/RIDIFoundation/XML/XMLDocument.swift:17-23 | the `rootElement` setter keeps the tree well formed |
| XmlTree.NonElements | Sources/RIDIFoundation/XML/XMLDocument.swift:18 | the filter keeps exactly the non-element children, in order |
| XmlTree.RootElementAssignedChildren | Sources/RIDIFoundation/XML/XMLDocument.swift:17-23 | afterwards the document's list is its former non-element children, in order, followed by the new element if there is one |
| XmlTree.RootElementAssignedNode | Sources/RIDIFoundation/XML/XMLDocument.swift:17-23 | the setter changes no kind, and the non-element children that are written back end without a parent |
| XmlTree.RootElementRoundTrip | Sources/RIDIFoundation/XML/XMLDocument.swift:13-23 | after setting `rootElement`, the getter answers the value set, or nil for nil |
| XmlTree.AttributesAssigned | Sources/RIDIFoundation/XML/XMLElement.swift:13-24 | assigning `attributes` keeps the tree well formed |
| XmlTree.AttributesAssignedEffect | Sources/RIDIFoundation/XML/XMLElement.swift:13-24 | the element becomes itself with exactly the new list (other fields unchanged); every new attribute becomes itself with the element as parent, including one that was already there; an old attribute that was dropped becomes itself with no parent; every other node is unchanged |
| XmlTree.ReplaceTarget | Sources/RIDIFoundation/XML/_XMLNode.swift:30-59 | the node whose list the `_XMLNode` setter edits is the one the path minus its last index reaches, and the last index is within bounds |
| XmlTree.Replaced | Sources/RIDIFoundation/XML/_XMLNode.swift:30-59 | the `_XMLNode` setter keeps the tree well formed, and changes no kind |
| XmlTree.ReplacedStep | Sources/RIDIFoundation/XML/_XMLNode.swift:39-45 | a level above the edited one writes back its unchanged list, so its children getter answers as before |
| XmlTree.ReplacedChildren | Sources/RIDIFoundation/XML/_XMLNode.swift:30-59 | afterwards only the target node's children answer differently: its list is appended to, replaced at one index with no shift, or has one index removed |
| XmlTree.ReplacedChildrenAt | Sources/RIDIFoundation/XML/_XMLNode.swift:30-59 | the same, for one node at a time |
| XmlTree.ReplacedAt | Sources/RIDIFoundation/XML/_XMLNode.swift:47-57 | at the edited level, the assigned index reads back the value, and every other index reads back its former child |
| XmlTree.ReplacedAtConforming | Sources/RIDIFoundation/XML/_XMLNode.swift:8-59 | the same, read through the `_XMLNode` getter, when the starting node conforms and every node on the path has only conforming children; the starting node still conforms afterwards |
| XmlTree.ReplacedThenGet | Sources/RIDIFoundation/XML/_XMLNode.swift:8-59 | when the starting node conforms and every node on the path has only conforming children, reading the path back after the setter answers the value assigned |
| XmlTree.ReplacedKeepsSiblings | Sources/RIDIFoundation/XML/_XMLNode.swift:47-57 | when the starting node conforms and every node on the path has only conforming children, a replace or append leaves every other index of the edited level unchanged, read through either getter |
| XmlTree.ReplacedChildrenConform | Sources/RIDIFoundation/XML/_XMLNode.swift:47-57 | assigning a conforming node into a conforming children list keeps that list conforming |
| XmlTree.ReplacedGettersAgree | Sources/RIDIFoundation/XML/_XMLNode.swift:8-59 | on a conforming path, the two getters agree at every index of the edited level, before and after the setter |
| XmlTree.Tree.NewNode | Sources/RIDIFoundation/XML/XMLNode.swift:42 | `init()` adds a fresh node with no parent, children, name or text, and leaves the rest of the tree unchanged |
| XmlTree.Tree.CopyNode | Sources/RIDIFoundation/XML/XMLNode.swift:44-49 | `init(_:)` adds a fresh node with the source's name, parent and text, not added to the parent's list; a document copy keeps no parent and no text |
| XmlTree.Tree.SetName | Sources/RIDIFoundation/XML/XMLNode.swift:26 | assigning `name` changes that field only |
| XmlTree.Tree.SetStringValue | Sources/RIDIFoundation/XML/XMLDocument.swift:35-38 | assigning `stringValue` changes that field, except on a document, where it has no effect |
| XmlTree.Tree.SetParents | Sources/RIDIFoundation/XML/XMLNode.swift:17 | the `forEach` loop leaves the arena described by `Reparent`: the listed nodes get the parent, and nothing else changes |
| XmlTree.Tree.SetChildren | Sources/RIDIFoundation/XML/XMLNode.swift:15-23 | the in-place `children` setter leaves exactly the arena `AssignChildren` describes |
| XmlTree.Tree.InsertChild | Sources/RIDIFoundation/XML/XMLNode.swift:75-79 | `insertChild` leaves exactly the arena `Inserted` describes |
| XmlTree.Tree.InsertChildren | Sources/RIDIFoundation/XML/XMLNode.swift:81-85 | `insertChildren` leaves exactly the arena `Inserted` describes |
| XmlTree.Tree.RemoveChild | Sources/RIDIFoundation/XML/XMLNode.swift:87-91 | `removeChild` leaves exactly the arena `Removed` describes |
| XmlTree.Tree.AddChild | Sources/RIDIFoundation/XML/XMLNode.swift:93-97 | `addChild` leaves exactly the arena `Added` describes |
| XmlTree.Tree.SetAtPath | Sources/RIDIFoundation/XML/XMLNode.swift:123-143 | the recursive setter edits only the node the path prefix reaches, by the last-step rule |
| XmlTree.Tree.SetRootElement | Sources/RIDIFoundation/XML/XMLDocument.swift:17-23 | the in-place `rootElement` setter leaves exactly the arena `RootElementAssigned` describes |
| XmlTree.Tree.SetAttributes | Sources/RIDIFoundation/XML/XMLElement.swift:13-24 | the `willSet`/`didSet` loops leave exactly the arena `AttributesAssigned` describes |
| XmlTree.Tree.ReplaceAtPath | Sources/RIDIFoundation/XML/_XMLNode.swift:30-59 | the recursive `_XMLNode` setter leaves exactly the arena `Replaced` describes |
| Strings.TokenEnd | Sources/RIDIFoundation/XML/Collection+XMLNode.swift:5 | the end of the first piece is the first separator, or the end of the string |
| Strings.Split | Sources/RIDIFoundation/XML/Collection+XMLNode.swift:5 | `split` produces only non-empty pieces that contain no separator |
| Strings.SplitJoin | Sources/RIDIFoundation/XML/XMLNode.swift:61-72 | joining pieces with '/' and splitting again gives back the pieces |
| Strings.SplitSnoc | Sources/RIDIFoundation/XML/XMLElement.swift:26-32 | appending "/" + piece to a string appends that piece to its split |
| Strings.RestAfterFirst | Sources/RIDIFoundation/XML/XMLNode.swift:70 | the query left after dropping the first piece is strictly shorter, so the matcher terminates |
| XmlQuery.Nodes | Sources/RIDIFoundation/XML/XMLNode.swift:52-73 | every node a query answers lies in the tree |
| XmlQuery.DocNodes | Sources/RIDIFoundation/XML/XMLDocument.swift:40-56 | a document's answers lie in the tree |
| XmlQuery.ElemNodes | Sources/RIDIFoundation/XML/XMLElement.swift:34-51 | an element's answers lie in the tree |
| XmlQuery.CollectionNodes | Sources/RIDIFoundation/XML/Collection+XMLNode.swift:4-29 | a collection's answers lie in the tree |
| XmlQuery.AllAttributes | Sources/RIDIFoundation/XML/XMLDocument.swift:43 | the gathered attributes lie in the tree |
| XmlQuery.XPathSubscript | Sources/RIDIFoundation/XML/XMLNode.swift:156-158 | `subscript(xPath:)` answers the nodes of a query that does not throw |
| XmlQuery.BaseNodes | Sources/RIDIFoundation/XML/XMLNode.swift:52-73 | the base `nodes(forXPath:)` answers only nodes of the tree |
| XmlQuery.NameMatches | Sources/RIDIFoundation/XML/Collection+XMLNode.swift:13-20 | a step only ever matches a node that has a name |
| XmlQuery.ValidStep | Sources/RIDIFoundation/XML/Collection+XMLNode.swift:5-11 | a valid first step is never the empty string |
| XmlQuery.Matching | Sources/RIDIFoundation/XML/Collection+XMLNode.swift:13-20 | the name filter keeps exactly the nodes of the collection whose name matches the step, as an order-preserving subsequence |
| XmlQuery.FlatMapNodes | Sources/RIDIFoundation/XML/Collection+XMLNode.swift:22-28 | the flat map over the selected nodes answers only nodes of the tree |
| XmlQuery.RelativeDispatch | Sources/RIDIFoundation/XML/XMLDocument.swift:55 | a query starting with neither '/' nor '@' goes to the base matcher whatever the node's class |
| XmlQuery.NameQueryIsSubscript | Sources/RIDIFoundation/XML/XMLNode.swift:61-67 | a one-name query answers exactly what `subscript(name:)` answers |
| XmlQuery.PathQueryDescends | Sources/RIDIFoundation/XML/XMLNode.swift:61-72 | "p/rest" answers the concatenation, in order, of the answers to "rest" from each child named p |
| XmlQuery.EmptyPiecesIgnored | Sources/RIDIFoundation/XML/XMLNode.swift:61 | "p//rest" answers what "p/rest" answers |
| XmlQuery.AbsoluteQueryFromAnyNode | Sources/RIDIFoundation/XML/XMLNode.swift:53-55 | from an element or an attribute, a query starting with '/' is answered by the root document, or answers nothing without one |
| XmlQuery.ParentQuery | Sources/RIDIFoundation/XML/XMLNode.swift:57-59 | "../rest" answers "rest" from the parent, or nothing without one (always nothing on a document) |
| XmlQuery.AttributeQuery | Sources/RIDIFoundation/XML/XMLElement.swift:35-48 | "@n" on an element answers exactly its attributes named n, in attribute order, and `attribute(forName:)` is the first of them |
| XmlQuery.AllAttributesMember | Sources/RIDIFoundation/XML/XMLDocument.swift:41-45 | a node is among the gathered attributes exactly when it is an attribute of one of the listed elements |
| XmlQuery.CollectionSingleStep | Sources/RIDIFoundation/XML/Collection+XMLNode.swift:13-23 | a single valid step succeeds and answers exactly the name filter of the collection: the matching nodes, in collection order and with their multiplicity |
| XmlQuery.CollectionRejects | Sources/RIDIFoundation/XML/Collection+XMLNode.swift:5-11 | with no non-empty piece, or a first piece of more than two ':' parts, the matcher throws `invalidXPath` |
| XmlQuery.CollectionPathStep | Sources/RIDIFoundation/XML/Collection+XMLNode.swift:13-28 | "p/rest" on a collection is the rest, joined without empty pieces, flat-mapped in order over the nodes whose name matches p |
| XmlQuery.DescendantQuery | Sources/RIDIFoundation/XML/XMLDocument.swift:47-49 | "//s" on a document answers exactly the name filter of its descendants: the matching ones, in document order |
| XmlQuery.DescendantPathQuery | Sources/RIDIFoundation/XML/XMLDocument.swift:47-49 | "//p/rest" on a document flat-maps the rest, in order, over the descendants whose name matches p |
| XmlQuery.AttributeAxisQuery | Sources/RIDIFoundation/XML/XMLDocument.swift:41-45 | "//@s" on a document answers exactly the name filter of the attributes of the elements below it: the matching ones, in document order then attribute order |
| XmlQuery.AttributeAxisPathQuery | Sources/RIDIFoundation/XML/XMLDocument.swift:41-45 | "//@p/rest" on a document flat-maps the rest, in order, over those matching attributes |
| XmlQuery.AttributePathQuery | Sources/RIDIFoundation/XML/XMLElement.swift:35-47 | "@n/rest" on an element flat-maps the rest over its attributes named n, in order, and answers nothing when it has no attribute list |
| XmlQuery.DocumentAbsoluteQuery | Sources/RIDIFoundation/XML/XMLDocument.swift:51-55 | on a document, "/s" (one leading '/') and "s" both answer what the base matcher answers for s from the document |
| XmlQuery.FlatMapSucceeds | Sources/RIDIFoundation/XML/Collection+XMLNode.swift:25-27 | a flat map succeeds exactly when the query succeeds from every node |
| XmlQuery.FlatMapAppend | Sources/RIDIFoundation/XML/Collection+XMLNode.swift:25-27 | the flat map over two lists is the first answer followed by the second, and fails when either fails |
| XmlQuery.WildcardMatchesLocalName | Sources/RIDIFoundation/XML/Collection+XMLNode.swift:14-16 | `*:local` matches a prefixed or an unprefixed name exactly when its local part equals `local`, and never matches a missing name |
| XmlQuery.StepParts | Sources/RIDIFoundation/XML/Collection+XMLNode.swift:5-18 | "p:l" is a valid step and matches the name "p:l"; "p::l" splits like "p:l"; "p:l:e" is invalid |
| XmlBuilder.OpenAfterAppend | Sources/RIDIFoundation/XML/_XMLParser.swift:20-24 | two streams in a row compose, and a trap in the first is final |
| XmlBuilder.OutcomeAfterAppend | Sources/RIDIFoundation/XML/_XMLParser.swift:20-24 | the verdict after two streams is the second run from the first's verdict |
| XmlBuilder.OutcomeAfter | Sources/RIDIFoundation/XML/_XMLParser.swift:33-43 | once a verdict is recorded, later callbacks may replace it but never clear it |
| XmlBuilder.Settled | Sources/RIDIFoundation/XML/_XMLParser.swift:20-24 | the final verdict is missing exactly when no callback recorded one and the tokenizer reported no error; a recorded verdict wins over the tokenizer's error |
| XmlBuilder.OnlyEndTagsTrap | Sources/RIDIFoundation/XML/_XMLParser.swift:80-98 | a stream without end tags never traps the builder |
| XmlBuilder.OnlyVerdictEventsDecide | Sources/RIDIFoundation/XML/_XMLParser.swift:33-43 | a stream without error or end-of-document callbacks leaves the verdict as it was |
| XmlBuilder.Floor | Sources/RIDIFoundation/XML/_XMLParser.swift:80-98 | the number of open elements a stream never closes is at most the number open before it |
| XmlBuilder.FloorStep | Sources/RIDIFoundation/XML/_XMLParser.swift:80-98 | that number is the smaller of the count before the stream and the one after its first event |
| XmlBuilder.FloorAppend | Sources/RIDIFoundation/XML/_XMLParser.swift:80-98 | for two streams in a row it is the smaller of the first's and the second's from where the first ended |
| XmlBuilder.FloorAdvance | Sources/RIDIFoundation/XML/_XMLParser.swift:20-24 | the running minimum of open counts advances by one event |
| XmlBuilder.StreamAdvance | Sources/RIDIFoundation/XML/_XMLParser.swift:20-24 | after one event, the open names, the verdict and the running minimum of the rest of the stream compose to those of the whole stream |
| XmlBuilder.CursorAdvance | Sources/RIDIFoundation/XML/_XMLParser.swift:80-98 | when the cursor only grows or shrinks, its part that was never popped stays a prefix of it |
| XmlBuilder.MarkupFloor | Sources/RIDIFoundation/XML/_XMLParser.swift:80-98 | a properly nested element closes none of the elements open before it |
| XmlBuilder.MarkupListFloor | Sources/RIDIFoundation/XML/_XMLParser.swift:80-98 | the same for a list of sibling elements |
| XmlBuilder.Prepared | Sources/RIDIFoundation/XML/_XMLParser.swift:52-60 | allocating the element and its attribute nodes keeps the tree well formed |
| XmlBuilder.PreparedElement | Sources/RIDIFoundation/XML/_XMLParser.swift:52-60 | the new element carries the name and exactly the new attribute nodes, and has no parent |
| XmlBuilder.PreparedAttribute | Sources/RIDIFoundation/XML/_XMLParser.swift:54-60 | the j-th attribute node carries the j-th name/value pair and has the element as parent |
| XmlBuilder.PreparedOld | Sources/RIDIFoundation/XML/_XMLParser.swift:52-60 | nodes that existed before are untouched |
| XmlBuilder.Opened | Sources/RIDIFoundation/XML/_XMLParser.swift:52-77 | the tree after a start tag is well formed |
| XmlBuilder.OpenedOld | Sources/RIDIFoundation/XML/_XMLParser.swift:71-76 | apart from the node the element is added to, every existing node is unchanged |
| XmlBuilder.OpenedTarget | Sources/RIDIFoundation/XML/_XMLParser.swift:71-76 | the open node gains the new element as its last child and nothing else |
| XmlBuilder.OpenedElement | Sources/RIDIFoundation/XML/_XMLParser.swift:52-76 | the new element has the open node as parent, the given name, its attributes and no children or text |
| XmlBuilder.OpenedAttribute | Sources/RIDIFoundation/XML/_XMLParser.swift:54-60 | the attribute nodes of the new element keep their pairs and have the element as parent |
| XmlBuilder.Innermost | Sources/RIDIFoundation/XML/_XMLParser.swift:76 | the cursor resolves to a non-attribute node at or below every open element |
| XmlBuilder.OpenedTracks | Sources/RIDIFoundation/XML/_XMLParser.swift:70-77 | after a start tag, the extended cursor resolves, level by level, to the open elements followed by the new one |
| XmlBuilder.OpenedNames | Sources/RIDIFoundation/XML/_XMLParser.swift:70-77 | after a start tag, the open names are the old ones followed by the new name |
| XmlBuilder.TextKeepsTracks | Sources/RIDIFoundation/XML/_XMLParser.swift:108-112 | changing a node's text leaves the cursor's meaning and the open names unchanged |
| XmlBuilder.XmlParser.constructor | Sources/RIDIFoundation/XML/_XMLParser.swift:8-18 | a builder starts with an empty document, an empty cursor, the open flag cleared and no result |
| XmlBuilder.XmlParser.DidStartDocument | Sources/RIDIFoundation/XML/_XMLParser.swift:28-31 | a fresh, empty document replaces the current one, and the cursor becomes the empty path |
| XmlBuilder.XmlParser.DidFail | Sources/RIDIFoundation/XML/_XMLParser.swift:33-39 | a parse or validation error overwrites the result with that failure and changes nothing else |
| XmlBuilder.XmlParser.DidEndDocument | Sources/RIDIFoundation/XML/_XMLParser.swift:41-43 | the end of the document overwrites the result with the current document |
| XmlBuilder.XmlParser.NewAttribute | Sources/RIDIFoundation/XML/_XMLParser.swift:55-59 | one dictionary entry becomes a fresh attribute node with that name and value |
| XmlBuilder.XmlParser.NewElement | Sources/RIDIFoundation/XML/_XMLParser.swift:52-60 | the loop allocates the element and one attribute per pair, leaving the arena `Prepared` describes |
| XmlBuilder.XmlParser.Attach | Sources/RIDIFoundation/XML/_XMLParser.swift:70-77 | both branches add the element as the last child of the open node (the document when the cursor is empty), and extend the cursor by its index |
| XmlBuilder.XmlParser.DidStartElement | Sources/RIDIFoundation/XML/_XMLParser.swift:45-78 | the tree becomes `Opened`; the cursor gains the new child's index and then resolves to the new element; the open names gain the name; the open flag is set |
| XmlBuilder.XmlParser.DidEndElement | Sources/RIDIFoundation/XML/_XMLParser.swift:80-98 | the open flag is cleared and the tree is unchanged; when the innermost open element has the end tag's name, the cursor loses exactly its last index and that element closes; otherwise the cursor and the open elements stay as they were. With the `DidStartElement` contract, a start tag followed by its matching end tag gives back the cursor from before the start tag |
| XmlBuilder.XmlParser.AppendText | Sources/RIDIFoundation/XML/_XMLParser.swift:108-112 | the text is appended to the node's string value, or becomes it when there was none |
| XmlBuilder.XmlParser.FoundCharacters | Sources/RIDIFoundation/XML/_XMLParser.swift:100-113 | while an element is open, its text gains the chunk; otherwise (after an end tag, or on the document) nothing changes |
| XmlBuilder.XmlParser.Dispatch | Sources/RIDIFoundation/XML/_XMLParser.swift:27-114 | one callback moves the open names and the verdict exactly as `OpenAfter` and `OutcomeAfter` say for that event, and the cursor only grows or shrinks (one is a prefix of the other) |
| XmlBuilder.XmlParser.DispatchNext | Sources/RIDIFoundation/XML/_XMLParser.swift:20-24 | one step of the callback loop: it keeps the open names, the verdict and the never-popped part of the cursor in step with the rest of the stream |
| XmlBuilder.XmlParser.Feed | Sources/RIDIFoundation/XML/_XMLParser.swift:20-24 | after the callbacks, the open names are `OpenAfter` of the events, the verdict is `OutcomeAfter` of them, and the cursor still begins with its part for the elements the stream never closed |
| XmlBuilder.XmlParser.Run | Sources/RIDIFoundation/XML/_XMLParser.swift:20-24 | after the callbacks, the open names are `OpenAfter` of the events, and the verdict is the last error or end callback, or else the tokenizer's own error; the cursor keeps its prefix for the elements never closed, and after a properly nested element it is back where it started |
| XmlBuilder.ParseDocument | Sources/RIDIFoundation/XML/XMLDocument.swift:62-76 | no verdict throws `featureUnsupported`; a failure rethrows its error; success yields the built document, which is a document |
| XmlBuilder.MarkupBalanced | Sources/RIDIFoundation/XML/_XMLParser.swift:80-98 | the callbacks for a properly nested element end with the same elements open as before it |
| XmlBuilder.MarkupListBalanced | Sources/RIDIFoundation/XML/_XMLParser.swift:80-98 | the same for a list of sibling elements |
| XmlBuilder.MarkupSilent | Sources/RIDIFoundation/XML/_XMLParser.swift:33-43 | the callbacks for markup never change the verdict |
| XmlBuilder.MarkupListSilent | Sources/RIDIFoundation/XML/_XMLParser.swift:33-43 | the same for a list of sibling elements |
| XmlBuilder.DocumentAccepted | Sources/RIDIFoundation/XML/XMLDocument.swift:62-76 | a document of properly nested markup never traps the builder, ends with nothing open, and yields a document whatever the tokenizer's error |

## Left out

- The tokenizer (Foundation's `XMLParser`), `Operation.start()` and the `_parserContext` line and column data are not modelled. They are foreign code. The callbacks arrive as a sequence of `Event`s, and the tokenizer's `parserError` is a parameter.
- The attribute dictionary of `didStartElement` has no defined order. The model takes the attributes as a given sequence of pairs.
- `XMLAttribute.swift` is not part of this model. An attribute is a node kind that has a name and a string value, no children list, and an element as parent.
- `init(xmlString:)` is not modelled: its UTF-8 conversion is foreign. `XMLDocument(data:)` is `ParseDocument` over the events.
- The non-XML files of the library are not part of this model: the user-defaults wrappers, atomics, dispatch queues, file observation and the undo manager.
- Swift's `Int` indices can be negative, and a negative index traps. The model uses `nat` for index paths, so it does not model that trap.
- XmlTree.Tree.InsertChild: requires the inserted node to be allocated after the container. The source accepts any node, but the arena's acyclicity invariant needs this ordering. This is a simplification: it excludes trees whose nodes were created in another order than they are nested, such as an element created before the document that later receives it as `rootElement` (`let e = XMLElement(); let d = XMLDocument(); d.rootElement = e`), or moving an older node below a newer one. The same holds for InsertChildren, AddChild, SetChildren, SetAtPath, SetRootElement, SetAttributes and ReplaceAtPath.
- XmlTree.Tree.InsertChildren: same ordering requirement as InsertChild.
- XmlTree.Tree.AddChild: same ordering requirement as InsertChild.
- XmlTree.Tree.SetChildren: same ordering requirement as InsertChild.
- XmlTree.Tree.SetAtPath: same ordering requirement as InsertChild. An empty path or an out-of-range index is a precondition, where the source traps.
- XmlTree.Tree.SetRootElement: same ordering requirement as InsertChild.
- XmlTree.Tree.SetAttributes: same ordering requirement as InsertChild.
- XmlTree.Tree.ReplaceAtPath: same ordering requirement as InsertChild. The traps (an empty path, a non-conforming or missing child on the way, an index out of range) are preconditions.
- XmlTree.Tree.CopyNode: a copy of an element does not copy its attributes, as in the source. The copy is not added to its parent's children list.
- XmlQuery.XPathSubscript: requires a query that does not throw, since `try!` traps on an error.
- XmlBuilder.XmlParser.DidEndElement: requires a non-empty cursor. With an empty cursor the document's nil name never matches, and `removeLast` on the empty path traps.
- XmlBuilder.XmlParser.Run: requires that no end tag arrives with nothing open (the trap above). The contract states the open elements and the verdict, not the shape of the finished tree.
- XmlBuilder.XmlParser.Dispatch: states the open names, the verdict and how the cursor moves, not the tree. What each event does to the tree is stated by the contract of the callback it calls (`DidStartDocument`, `DidStartElement`, `DidEndElement`, `FoundCharacters`, `DidFail`, `DidEndDocument`), which Dispatch selects by the event's kind.
- XmlBuilder.XmlParser.Feed: like Dispatch, states the open names, the verdict and the cursor prefix, not the finished tree.
- XmlBuilder.OpenAfter: carries no contract of its own. Its properties are the lemmas `OpenAfterAppend`, `OnlyEndTagsTrap`, `MarkupBalanced` and `MarkupListBalanced`, and the `Feed` and `Run` postconditions.
- XmlBuilder.ParseDocument: same trap precondition as Run. It does not state which tree a successful parse builds, only that the result is a document.
- XmlBuilder.XmlParser.DidStartElement: the model finds the open node before allocating the new element. The source looks it up afterwards, but allocation does not change which node the cursor reaches (`GetFrameBelow`).
- XmlBuilder.XmlParser.constructor: the source creates its document lazily, on first use. The model creates it when the builder is created. `didStartDocument` replaces it in both.
- The tree is an arena of values, so the model does not capture object identity or aliasing beyond node indices. Nodes that become unreachable are never reclaimed, and the weak `parent` reference is an index that stays valid.
- The fixture document of the tests (a `note` element with four children, the first of them `to` with text `Tove`) is not replayed as a concrete run. The per-callback contracts of `DidStartElement`, `FoundCharacters` and `DidEndElement` describe the tree each of its events produces.
- The test expectation that an attribute of the root element is at level 0 disagrees with `level` as written, which gives 1. No value is asserted for it.
- Swift `String` compares by canonical equivalence and `split` works on grapheme clusters. The model's strings are sequences of characters compared exactly, so names that differ only in Unicode normalisation, and separators inside a combining sequence, are not modelled.
