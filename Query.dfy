/** The path matcher behind `nodes(forXPath:)` and `subscript(xPath:)`: a
    query is split on '/', each piece selects children by name, and the
    matcher of the node's own class decides what a leading "/", "//", "//@",
    "../" or "@" means. No predicates, no axes other than these. */
module XmlQuery {
  import opened XmlNodes
  import opened Strings
  import opened XmlNavigation

  type Answer = Result<seq<NodeId>, XmlError>

  /** A successful answer lists nodes of the tree only. */
  predicate InArena(a: Arena, r: Answer)
  {
    r.Success? ==> forall j | 0 <= j < |r.value| :: r.value[j] < |a|
  }

  /** Dynamic dispatch: the override of the node's own class. */
  function Nodes(a: Arena, id: NodeId, q: string): (r: Answer)
    requires WellFormed(a) && id < |a|
    ensures InArena(a, r)
    decreases |q|, 3, 0
  {
    match a[id].kind
    case Document => DocNodes(a, id, q)
    case Element => ElemNodes(a, id, q)
    case Attribute => BaseNodes(a, id, q)
  }

  /** `XMLDocument.nodes(forXPath:)`. */
  function DocNodes(a: Arena, id: NodeId, q: string): (r: Answer)
    requires WellFormed(a) && id < |a| && a[id].kind == Document
    ensures InArena(a, r)
    decreases |q|, if "/" <= q then 0 else 2, 0
  {
    if "//@" <= q then
      match Flattened(a, id)
      case None => Success([])
      case Some(fs) => CollectionNodes(a, AllAttributes(a, fs), q[3..])
    else if "//" <= q then
      match Flattened(a, id)
      case None => Success([])
      case Some(fs) => CollectionNodes(a, fs, q[2..])
    else if "/" <= q then
      BaseNodes(a, id, q[1..])
    else
      BaseNodes(a, id, q)
  }

  /** `XMLElement.nodes(forXPath:)`: a query starting with '@' selects
      attributes by the name after the '@'. */
  function ElemNodes(a: Arena, id: NodeId, q: string): (r: Answer)
    requires WellFormed(a) && id < |a| && a[id].kind == Element
    ensures InArena(a, r)
    decreases |q|, 2, 0
  {
    if "@" <= q then
      assert NodeOk(a, id);
      var paths := Split(q, '/');
      var first := if paths == [] then None else Some(paths[0][1..]);
      match a[id].attributes
      case None => Success([])
      case Some(attrs) =>
        var matched := Named(a, attrs, first);
        if |paths| <= 1 then Success(matched)
        else FlatMapNodes(a, matched, RestAfterFirst(q, '/'))
    else
      BaseNodes(a, id, q)
  }

  /** `XMLNode.nodes(forXPath:)`: an absolute query goes to the root
      document, "../" to the parent, anything else selects the children named
      by the first piece and matches the rest below each of them. */
  function BaseNodes(a: Arena, id: NodeId, q: string): (r: Answer)
    requires WellFormed(a) && id < |a|
    ensures InArena(a, r)
    decreases |q|, 1, 0
  {
    if "/" <= q then
      match RootDocument(a, id)
      case None => Success([])
      case Some(d) => DocNodes(a, d, q)
    else if "../" <= q then
      match Parent(a, id)
      case None => Success([])
      case Some(p) => Nodes(a, p, q[3..])
    else
      var paths := Split(q, '/');
      var first := if paths == [] then None else Some(paths[0]);
      match Children(a, id)
      case None => Success([])
      case Some(cs) =>
        var elements := Named(a, cs, first);
        if |paths| <= 1 then Success(elements)
        else FlatMapNodes(a, elements, RestAfterFirst(q, '/'))
  }

  /** The name test of the collection matcher: "*:local" compares the part of
      the name after its last ':'; anything else compares the whole name with
      the pieces joined by ':'. */
  predicate NameMatches(name: Option<string>, pieces: seq<string>)
    ensures NameMatches(name, pieces) ==> name.Some?
  {
    if |pieces| == 2 && pieces[0] == "*" then
      name.Some? && var ps := Split(name.value, ':'); ps != [] && ps[|ps| - 1] == pieces[1]
    else
      name == Some(Join(pieces, ':'))
  }

  /** The first piece of a collection query is well formed: one or two
      ':'-separated parts. */
  predicate ValidStep(piece: string)
    ensures ValidStep(piece) ==> piece != []
  {
    1 <= |Split(piece, ':')| <= 2
  }

  /** `Collection.nodes(forXPath:)`: throws `invalidXPath` unless the first
      piece is valid; selects the nodes of the collection whose name matches
      it, then matches the rest below each of them. */
  function CollectionNodes(a: Arena, ids: seq<NodeId>, q: string): (r: Answer)
    requires WellFormed(a) && forall j | 0 <= j < |ids| :: ids[j] < |a|
    ensures InArena(a, r)
    decreases |q|, 0, 0
  {
    var paths := Split(q, '/');
    if paths == [] || !ValidStep(paths[0]) then Failure(InvalidXPath)
    else
      var elements := Matching(a, ids, Split(paths[0], ':'));
      if |paths| <= 1 then Success(elements)
      else FlatMapNodes(a, elements, RestAfterFirst(q, '/'))
  }

  /** The name filter of the collection matcher: the nodes of the
      collection whose name matches the pieces, in order. */
  function Matching(a: Arena, ids: seq<NodeId>, pieces: seq<string>): (r: seq<NodeId>)
    requires forall j | 0 <= j < |ids| :: ids[j] < |a|
    ensures forall x | x in r :: x in ids && NameMatches(a[x].name, pieces)
    ensures forall x | x in ids && NameMatches(a[x].name, pieces) :: x in r
    ensures forall j | 0 <= j < |r| :: r[j] < |a|
    ensures Subsequence(r, ids)
  {
    Filter(ids, (c: NodeId) => c < |a| && NameMatches(a[c].name, pieces))
  }

  /** `try ids.flatMap { try $0.nodes(forXPath: q) }`: the answers
      concatenated in order; the first error stops the walk. */
  function FlatMapNodes(a: Arena, ids: seq<NodeId>, q: string): (r: Answer)
    requires WellFormed(a) && forall j | 0 <= j < |ids| :: ids[j] < |a|
    ensures InArena(a, r)
    decreases |q|, 4, |ids|
  {
    if ids == [] then Success([])
    else
      match Nodes(a, ids[0], q)
      case Failure(e) => Failure(e)
      case Success(xs) =>
        match FlatMapNodes(a, ids[1..], q)
        case Failure(e) => Failure(e)
        case Success(ys) =>
          assert forall j | |xs| <= j < |xs + ys| :: (xs + ys)[j] == ys[j - |xs|];
          Success(xs + ys)
  }

  /** `flatMap { ($0 as? XMLElement)?.attributes ?? [] }`. */
  function AllAttributes(a: Arena, ids: seq<NodeId>): (r: seq<NodeId>)
    requires WellFormed(a) && forall j | 0 <= j < |ids| :: ids[j] < |a|
    ensures forall j | 0 <= j < |r| :: r[j] < |a|
  {
    if ids == [] then []
    else
      assert NodeOk(a, ids[0]);
      var own := if a[ids[0]].kind == Element then a[ids[0]].attributes.GetOr([]) else [];
      own + AllAttributes(a, ids[1..])
  }

  /** `subscript(xPath:)`: `try!` traps on an error, so the caller must pass
      a query that does not throw. */
  function XPathSubscript(a: Arena, id: NodeId, q: string): (r: seq<NodeId>)
    requires WellFormed(a) && id < |a|
    requires Nodes(a, id, q).Success?
    ensures Nodes(a, id, q) == Success(r)
    ensures forall j | 0 <= j < |r| :: r[j] < |a|
  {
    Nodes(a, id, q).value
  }

  // ---------------------------------------------------------------------
  // What a query answers

  /** A query that starts with neither '/' nor '@' is handled by the base
      matcher whatever the class of the node. */
  lemma RelativeDispatch(a: Arena, id: NodeId, q: string)
    requires WellFormed(a) && id < |a|
    requires q != [] && q[0] != '/' && q[0] != '@'
    ensures Nodes(a, id, q) == BaseNodes(a, id, q)
  {
    assert !("//@" <= q) && !("//" <= q) && !("/" <= q) && !("@" <= q);
    if a[id].kind == Document {
      assert Nodes(a, id, q) == DocNodes(a, id, q);
    } else if a[id].kind == Element {
      assert Nodes(a, id, q) == ElemNodes(a, id, q);
    }
  }

  /** The base matcher on a piece that names a child (neither "../" nor
      absolute). */
  lemma BaseNamedStep(a: Arena, id: NodeId, q: string, p: string)
    requires WellFormed(a) && id < |a|
    requires !("/" <= q) && !("../" <= q)
    requires Split(q, '/') != [] && Split(q, '/')[0] == p
    ensures BaseNodes(a, id, q) ==
      if |Split(q, '/')| <= 1 then Success(ChildrenNamed(a, id, p))
      else FlatMapNodes(a, ChildrenNamed(a, id, p), RestAfterFirst(q, '/'))
  {
  }

  /** A query that is a single name selects the direct children with that
      name, in order: the same nodes as `subscript(name:)`. */
  lemma NameQueryIsSubscript(a: Arena, id: NodeId, n: string)
    requires WellFormed(a) && id < |a|
    requires IsPiece(n, '/') && n[0] != '@'
    ensures Nodes(a, id, n) == Success(ChildrenNamed(a, id, n))
  {
    assert n[0] in n;
    if |n| >= 3 {
      assert n[2] in n;
    }
    assert !("/" <= n) && !("../" <= n);
    SplitPiece(n, '/');
    RelativeDispatch(a, id, n);
    BaseNamedStep(a, id, n, n);
  }

  /** A relative query of several pieces selects the children named by the
      first piece and answers the rest of the query below each of them, in
      order. */
  lemma PathQueryDescends(a: Arena, id: NodeId, p: string, rest: string)
    requires WellFormed(a) && id < |a|
    requires IsPiece(p, '/') && p[0] != '@' && p != ".."
    requires Split(rest, '/') != []
    ensures Nodes(a, id, p + "/" + rest)
              == FlatMapNodes(a, ChildrenNamed(a, id, p), Join(Split(rest, '/'), '/'))
  {
    var q := p + "/" + rest;
    assert q[0] == p[0] && p[0] in p;
    if |p| >= 3 {
      assert q[2] == p[2] && p[2] in p;
    } else if |p| == 2 {
      assert q[..2] == p;
    } else {
      assert q[1] == '/';
    }
    assert !("/" <= q) && !("../" <= q);
    assert q == p + ['/'] + rest;
    SplitCons(p, rest, '/');
    RelativeDispatch(a, id, q);
    BaseNamedStep(a, id, q, p);
  }

  /** Empty pieces do not count: "p//rest" answers what "p/rest" answers. */
  lemma EmptyPiecesIgnored(a: Arena, id: NodeId, p: string, rest: string)
    requires WellFormed(a) && id < |a|
    requires IsPiece(p, '/') && p[0] != '@' && p != ".."
    requires Split(rest, '/') != []
    ensures Nodes(a, id, p + "//" + rest) == Nodes(a, id, p + "/" + rest)
  {
    var rest' := "/" + rest;
    assert rest'[1..] == rest;
    assert Split(rest', '/') == Split(rest, '/');
    assert p + "//" + rest == p + "/" + rest';
    PathQueryDescends(a, id, p, rest);
    PathQueryDescends(a, id, p, rest');
  }

  /** An absolute query from an element or an attribute node is answered by
      its root document; a node outside any document answers nothing. */
  lemma AbsoluteQueryFromAnyNode(a: Arena, id: NodeId, q: string)
    requires WellFormed(a) && id < |a| && a[id].kind != Document
    requires "/" <= q
    ensures Nodes(a, id, q) == match RootDocument(a, id)
                               case None => Success([])
                               case Some(d) => Nodes(a, d, q)
  {
    assert q[0] == '/';
    assert !("@" <= q);
    if a[id].kind == Element {
      assert Nodes(a, id, q) == ElemNodes(a, id, q) == BaseNodes(a, id, q);
    } else {
      assert Nodes(a, id, q) == BaseNodes(a, id, q);
    }
    match RootDocument(a, id)
    case None =>
    case Some(d) =>
      assert Nodes(a, d, q) == DocNodes(a, d, q);
  }

  /** "../rest" from any node answers "rest" from its parent, and nothing
      when there is no parent (always so for a document). */
  lemma ParentQuery(a: Arena, id: NodeId, rest: string)
    requires WellFormed(a) && id < |a|
    ensures Nodes(a, id, "../" + rest) == match Parent(a, id)
                                         case None => Success([])
                                         case Some(p) => Nodes(a, p, rest)
  {
    var q := "../" + rest;
    assert q[..3] == "../" && q[3..] == rest;
    RelativeDispatch(a, id, q);
  }

  /** "@name" on an element selects its attributes with that name, in order;
      `attribute(forName:)` answers the first of them. */
  lemma AttributeQuery(a: Arena, e: NodeId, n: string)
    requires WellFormed(a) && e < |a| && a[e].kind == Element
    requires '/' !in n
    ensures NodeOk(a, e)
    ensures var r := Nodes(a, e, "@" + n);
      && r == Success(match a[e].attributes
                      case None => []
                      case Some(attrs) => Named(a, attrs, Some(n)))
      && AttributeNamed(a, e, n) == if r.value == [] then None else Some(r.value[0])
  {
    assert NodeOk(a, e);
    var q := "@" + n;
    assert q[0] == '@' && q[1..] == n;
    assert '/' !in q by {
      forall j | 0 <= j < |q| ensures q[j] != '/' {
        if j > 0 {
          assert q[j] == n[j - 1] && n[j - 1] in n;
        }
      }
    }
    SplitPiece(q, '/');
    if a[e].attributes.Some? {
      AttributeNamedIsFirstOfNamed(a, e, n);
    }
  }

  /** "@name/rest" on an element: its attributes with that name, in order,
      each answering the rest of the query; nothing without attributes. */
  lemma AttributePathQuery(a: Arena, e: NodeId, n: string, rest: string)
    requires WellFormed(a) && e < |a| && a[e].kind == Element
    requires '/' !in n && Split(rest, '/') != []
    ensures NodeOk(a, e)
    ensures Nodes(a, e, "@" + n + "/" + rest)
              == match a[e].attributes
                 case None => Success([])
                 case Some(attrs) => FlatMapNodes(a, Named(a, attrs, Some(n)), Join(Split(rest, '/'), '/'))
  {
    assert NodeOk(a, e);
    var head := "@" + n;
    var q := head + "/" + rest;
    assert q[0] == '@' && head[1..] == n;
    assert IsPiece(head, '/') by {
      forall j | 0 <= j < |head| ensures head[j] != '/' {
        if j > 0 {
          assert head[j] == n[j - 1] && n[j - 1] in n;
        }
      }
    }
    assert q == head + ['/'] + rest;
    SplitCons(head, rest, '/');
  }

  /** An absolute query on a document, with a single leading '/', is the
      relative query from the document itself. */
  lemma DocumentAbsoluteQuery(a: Arena, d: NodeId, s: string)
    requires WellFormed(a) && d < |a| && a[d].kind == Document
    requires s == [] || s[0] != '/'
    ensures Nodes(a, d, "/" + s) == BaseNodes(a, d, s)
    ensures Nodes(a, d, s) == BaseNodes(a, d, s)
  {
    var q := "/" + s;
    assert q[1..] == s;
    if s != [] {
      assert q[1] == s[0];
    }
    assert !("//" <= q) && !("//@" <= q) && "/" <= q;
    assert !("//" <= s) && !("//@" <= s) && !("/" <= s);
  }

  /** Membership in the attributes of a list of nodes: exactly the attributes
      of its elements. */
  lemma AllAttributesMember(a: Arena, ids: seq<NodeId>, x: NodeId)
    requires WellFormed(a) && forall j | 0 <= j < |ids| :: ids[j] < |a|
    ensures x in AllAttributes(a, ids) <==>
      exists j | 0 <= j < |ids| :: a[ids[j]].kind == Element && x in a[ids[j]].attributes.GetOr([])
    decreases |ids|
  {
    if ids != [] {
      AllAttributesMember(a, ids[1..], x);
      if exists j | 0 <= j < |ids[1..]| :: a[ids[1..][j]].kind == Element && x in a[ids[1..][j]].attributes.GetOr([]) {
        var j :| 0 <= j < |ids[1..]| && a[ids[1..][j]].kind == Element && x in a[ids[1..][j]].attributes.GetOr([]);
        assert ids[j + 1] == ids[1..][j];
      }
      if exists j | 0 <= j < |ids| :: a[ids[j]].kind == Element && x in a[ids[j]].attributes.GetOr([]) {
        var j :| 0 <= j < |ids| && a[ids[j]].kind == Element && x in a[ids[j]].attributes.GetOr([]);
        if j > 0 {
          assert ids[1..][j - 1] == ids[j];
        }
      }
    }
  }

  /** One step of the collection matcher: with a single valid piece it
      selects, in order, exactly the nodes of the collection whose name
      matches the piece. */
  lemma CollectionSingleStep(a: Arena, ids: seq<NodeId>, s: string)
    requires WellFormed(a) && forall j | 0 <= j < |ids| :: ids[j] < |a|
    requires IsPiece(s, '/') && ValidStep(s)
    ensures var r := CollectionNodes(a, ids, s);
      && r == Success(Matching(a, ids, Split(s, ':')))
      && Subsequence(r.value, ids)
      && (forall x | x in r.value :: x in ids && NameMatches(a[x].name, Split(s, ':')))
      && (forall x | x in ids && NameMatches(a[x].name, Split(s, ':')) :: x in r.value)
  {
    SplitPiece(s, '/');
  }

  /** The collection matcher on "p/rest": the nodes of the collection whose
      name matches `p`, in order, each answering the rest of the query below
      itself, the answers concatenated in order. */
  lemma CollectionPathStep(a: Arena, ids: seq<NodeId>, p: string, rest: string)
    requires WellFormed(a) && forall j | 0 <= j < |ids| :: ids[j] < |a|
    requires IsPiece(p, '/') && ValidStep(p) && Split(rest, '/') != []
    ensures CollectionNodes(a, ids, p + "/" + rest)
              == FlatMapNodes(a, Matching(a, ids, Split(p, ':')), Join(Split(rest, '/'), '/'))
  {
    var q := p + "/" + rest;
    assert q == p + ['/'] + rest;
    RestAfterPiece(p, rest, '/');
    var paths := Split(q, '/');
    assert paths != [] && ValidStep(paths[0]) && |paths| > 1;
  }

  /** A collection query whose first piece is missing or has more than two
      ':'-separated parts throws `invalidXPath`, whatever the collection. */
  lemma CollectionRejects(a: Arena, ids: seq<NodeId>, q: string)
    requires WellFormed(a) && forall j | 0 <= j < |ids| :: ids[j] < |a|
    requires Split(q, '/') == [] || !ValidStep(Split(q, '/')[0])
    ensures CollectionNodes(a, ids, q) == Failure(InvalidXPath)
  {
  }

  /** "//name" on a document selects, in document order, exactly the
      descendants whose name matches. */
  lemma DescendantQuery(a: Arena, doc: NodeId, s: string)
    requires WellFormed(a) && doc < |a| && a[doc].kind == Document
    requires IsPiece(s, '/') && ValidStep(s) && s[0] != '@'
    ensures var r := Nodes(a, doc, "//" + s);
      var fs := Flattened(a, doc).value;
      && r == Success(Matching(a, fs, Split(s, ':')))
      && Subsequence(r.value, fs)
      && (forall x | x in r.value :: x in fs && NameMatches(a[x].name, Split(s, ':')))
      && (forall x | x in fs && NameMatches(a[x].name, Split(s, ':')) :: x in r.value)
  {
    var q := "//" + s;
    assert q[2] == s[0];
    assert !("//@" <= q);
    assert q[2..] == s;
    CollectionSingleStep(a, Flattened(a, doc).value, s);
  }

  /** "//name/rest" on a document: the descendants whose name matches, in
      document order, each answering the rest of the query. */
  lemma DescendantPathQuery(a: Arena, doc: NodeId, p: string, rest: string)
    requires WellFormed(a) && doc < |a| && a[doc].kind == Document
    requires IsPiece(p, '/') && ValidStep(p) && p[0] != '@' && Split(rest, '/') != []
    ensures Nodes(a, doc, "//" + (p + "/" + rest))
              == FlatMapNodes(a, Matching(a, Flattened(a, doc).value, Split(p, ':')), Join(Split(rest, '/'), '/'))
  {
    var tail := p + "/" + rest;
    var q := "//" + tail;
    assert q[2] == p[0];
    assert !("//@" <= q);
    assert q[2..] == tail;
    CollectionPathStep(a, Flattened(a, doc).value, p, rest);
  }

  /** "//@name" on a document selects the attributes, of elements anywhere
      below it, whose name matches: exactly the matching ones among all
      their attributes, in document order and attribute order. */
  lemma AttributeAxisQuery(a: Arena, doc: NodeId, s: string, x: NodeId)
    requires WellFormed(a) && doc < |a| && a[doc].kind == Document && x < |a|
    requires IsPiece(s, '/') && ValidStep(s)
    ensures var r := Nodes(a, doc, "//@" + s);
      var fs := Flattened(a, doc).value;
      && r == Success(Matching(a, AllAttributes(a, fs), Split(s, ':')))
      && Subsequence(r.value, AllAttributes(a, fs))
      && (x in r.value <==>
            (exists j | 0 <= j < |fs| :: a[fs[j]].kind == Element && x in a[fs[j]].attributes.GetOr([]))
            && NameMatches(a[x].name, Split(s, ':')))
  {
    var q := "//@" + s;
    assert q[..3] == "//@" && q[3..] == s;
    var fs := Flattened(a, doc).value;
    var attrs := AllAttributes(a, fs);
    CollectionSingleStep(a, attrs, s);
    AllAttributesMember(a, fs, x);
  }

  /** "//@name/rest" on a document: the matching attributes, as for
      "//@name", each answering the rest of the query. */
  lemma AttributeAxisPathQuery(a: Arena, doc: NodeId, p: string, rest: string)
    requires WellFormed(a) && doc < |a| && a[doc].kind == Document
    requires IsPiece(p, '/') && ValidStep(p) && Split(rest, '/') != []
    ensures var fs := Flattened(a, doc).value;
      Nodes(a, doc, "//@" + (p + "/" + rest))
        == FlatMapNodes(a, Matching(a, AllAttributes(a, fs), Split(p, ':')), Join(Split(rest, '/'), '/'))
  {
    var tail := p + "/" + rest;
    var q := "//@" + tail;
    assert q[..3] == "//@" && q[3..] == tail;
    var fs := Flattened(a, doc).value;
    assert Nodes(a, doc, q) == DocNodes(a, doc, q);
    assert DocNodes(a, doc, q) == CollectionNodes(a, AllAttributes(a, fs), tail);
    CollectionPathStep(a, AllAttributes(a, fs), p, rest);
  }

  /** A flat map succeeds exactly when the query succeeds from every node. */
  lemma FlatMapSucceeds(a: Arena, ids: seq<NodeId>, q: string)
    requires WellFormed(a) && forall j | 0 <= j < |ids| :: ids[j] < |a|
    ensures FlatMapNodes(a, ids, q).Success? <==> forall j | 0 <= j < |ids| :: Nodes(a, ids[j], q).Success?
    decreases |ids|
  {
    if ids != [] {
      FlatMapSucceeds(a, ids[1..], q);
      assert forall j | 1 <= j < |ids| :: ids[j] == ids[1..][j - 1];
    }
  }

  /** The answers of a flat map over two lists are the answers over the first
      followed by those over the second. */
  lemma {:induction false} FlatMapAppend(a: Arena, ids: seq<NodeId>, more: seq<NodeId>, q: string)
    requires WellFormed(a) && forall j | 0 <= j < |ids| :: ids[j] < |a|
    requires forall j | 0 <= j < |more| :: more[j] < |a|
    ensures forall j | 0 <= j < |ids + more| :: (ids + more)[j] < |a|
    ensures FlatMapNodes(a, ids + more, q) ==
      match FlatMapNodes(a, ids, q)
      case Failure(e) => Failure(e)
      case Success(xs) =>
        match FlatMapNodes(a, more, q)
        case Failure(e) => Failure(e)
        case Success(ys) => Success(xs + ys)
    decreases |ids|
  {
    if ids == [] {
      assert ids + more == more;
      if FlatMapNodes(a, more, q).Success? {
        assert [] + FlatMapNodes(a, more, q).value == FlatMapNodes(a, more, q).value;
      }
    } else {
      assert (ids + more)[1..] == ids[1..] + more;
      FlatMapAppend(a, ids[1..], more, q);
      match Nodes(a, ids[0], q)
      case Failure(_) =>
      case Success(xs) =>
        match FlatMapNodes(a, ids[1..], q)
        case Failure(_) =>
        case Success(ys) =>
          match FlatMapNodes(a, more, q)
          case Failure(_) =>
          case Success(zs) =>
            assert xs + (ys + zs) == (xs + ys) + zs;
    }
  }

  /** The wildcard prefix compares the local name only, with or without a
      namespace prefix; a missing name never matches. */
  lemma WildcardMatchesLocalName(prefix: string, local: string, wanted: string)
    requires IsPiece(prefix, ':') && IsPiece(local, ':')
    ensures NameMatches(Some(prefix + ":" + local), ["*", wanted]) <==> local == wanted
    ensures NameMatches(Some(local), ["*", wanted]) <==> local == wanted
    ensures !NameMatches(None, ["*", wanted])
  {
    SplitCons(prefix, local, ':');
    assert prefix + ":" + local == prefix + [':'] + local;
    SplitPiece(local, ':');
  }

  lemma SplitTwo(prefix: string, local: string)
    requires IsPiece(prefix, ':') && IsPiece(local, ':')
    ensures Split(prefix + ":" + local, ':') == [prefix, local]
  {
    SplitPiece(local, ':');
    assert prefix + ":" + local == prefix + [':'] + local;
    SplitCons(prefix, local, ':');
  }

  lemma SplitDoubled(prefix: string, local: string)
    requires IsPiece(prefix, ':') && IsPiece(local, ':')
    ensures Split(prefix + "::" + local, ':') == [prefix, local]
  {
    SplitPiece(local, ':');
    var colonLocal := [':'] + local;
    assert colonLocal[1..] == local;
    assert Split(colonLocal, ':') == [local];
    assert prefix + "::" + local == prefix + [':'] + colonLocal;
    SplitCons(prefix, colonLocal, ':');
  }

  lemma SplitThree(prefix: string, local: string, extra: string)
    requires IsPiece(prefix, ':') && IsPiece(local, ':') && IsPiece(extra, ':')
    ensures |Split(prefix + ":" + local + ":" + extra, ':')| == 3
  {
    SplitTwo(local, extra);
    assert local + ":" + extra == local + [':'] + extra;
    assert prefix + ":" + local + ":" + extra == prefix + [':'] + (local + [':'] + extra);
    SplitCons(prefix, local + [':'] + extra, ':');
  }

  /** A step "prefix:local" is valid and names "prefix:local"; repeated ':'
      collapse, so "prefix::local" names the same; a third part makes the
      step invalid. */
  lemma StepParts(prefix: string, local: string, extra: string)
    requires IsPiece(prefix, ':') && IsPiece(local, ':') && IsPiece(extra, ':')
    ensures ValidStep(prefix + ":" + local)
    ensures Split(prefix + "::" + local, ':') == Split(prefix + ":" + local, ':')
    ensures NameMatches(Some(prefix + ":" + local), Split(prefix + "::" + local, ':'))
    ensures !ValidStep(prefix + ":" + local + ":" + extra)
  {
    SplitTwo(prefix, local);
    SplitDoubled(prefix, local);
    SplitThree(prefix, local, extra);
    assert Join([prefix, local], ':') == prefix + [':'] + local;
    assert prefix + ":" + local == prefix + [':'] + local;
    WildcardMatchesLocalName(prefix, local, local);
  }
}
