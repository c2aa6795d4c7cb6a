/** The structured text stream the reflection engine reads and writes: a tree
    of named nodes, each with attributes, an optional text value and child
    nodes, visited through a cursor. This is the `IStructuredTextStream`
    interface the reflection code is written against, not its XML
    implementation: writing builds the tree node by node; reading moves a
    cursor to the first child, the next sibling or the parent and reports
    NODEDOESNTEXIST when there is none, and a missing attribute is reported
    as NODEDOESNTEXIST too, the failure the reflection code tests for. */
module Stream {
  import opened Common

  datatype StreamError =
    | StreamOk
    | StreamEof
    | FileNotFound
    | FileNotOpened
    | BadData
    | FileDoesntExist
    | NodeDoesntExist

  /** One attribute as written; a later one for the same key replaces an
      earlier one. */
  datatype Attr = Attr(key: string, value: string)

  datatype Node = Node(name: string, attributes: seq<Attr>, value: string, children: seq<Node>)

  /** The value last written for `key`. */
  function Attribute(n: Node, key: string): Option<string>
  {
    AttributeBelow(n.attributes, key, |n.attributes|)
  }

  /** The value of the last attribute for `key` among the first `i`. */
  function AttributeBelow(attrs: seq<Attr>, key: string, i: nat): Option<string>
    requires i <= |attrs|
  {
    if i == 0 then None
    else if attrs[i - 1].key == key then Some(attrs[i - 1].value)
    else AttributeBelow(attrs, key, i - 1)
  }

  /** Setting an attribute replaces the value read for its key and leaves
      every other key's value alone. */
  lemma SetAttribute(n: Node, key: string, value: string, other: string)
    requires other != key
    ensures Attribute(n.(attributes := n.attributes + [Attr(key, value)]), key) == Some(value)
    ensures Attribute(n.(attributes := n.attributes + [Attr(key, value)]), other) == Attribute(n, other)
  {
    var attrs := n.attributes + [Attr(key, value)];
    AttributeBelowPrefix(n.attributes, attrs, other, |n.attributes|);
  }

  lemma {:induction false} AttributeBelowPrefix(a: seq<Attr>, b: seq<Attr>, key: string, i: nat)
    requires i <= |a| <= |b| && a == b[..|a|]
    ensures AttributeBelow(a, key, i) == AttributeBelow(b, key, i)
  {
    if i > 0 {
      assert a[i - 1] == b[i - 1];
      AttributeBelowPrefix(a, b, key, i - 1);
    }
  }

  /** A node with no attributes, value or children, as `WriteNode` starts it. */
  function Element(name: string): Node
  {
    Node(name, [], "", [])
  }

  /** The node a cursor path leads to: `path[i]` picks a child at depth `i`. */
  predicate ValidPath(root: Node, path: seq<nat>)
    decreases |path|
  {
    path == [] || (path[0] < |root.children| && ValidPath(root.children[path[0]], path[1..]))
  }

  function At(root: Node, path: seq<nat>): Node
    requires ValidPath(root, path)
    decreases |path|
  {
    if path == [] then root else At(root.children[path[0]], path[1..])
  }

  lemma {:induction false} ValidPathExtend(root: Node, path: seq<nat>, i: nat)
    requires ValidPath(root, path)
    ensures ValidPath(root, path + [i]) <==> i < |At(root, path).children|
    ensures i < |At(root, path).children| ==> At(root, path + [i]) == At(root, path).children[i]
    decreases |path|
  {
    if path != [] {
      assert (path + [i])[1..] == path[1..] + [i];
      ValidPathExtend(root.children[path[0]], path[1..], i);
    } else {
      assert ([] + [i])[1..] == [];
    }
  }

  lemma {:induction false} ValidPathPrefix(root: Node, path: seq<nat>)
    requires path != [] && ValidPath(root, path)
    ensures ValidPath(root, path[..|path| - 1])
    ensures path[|path| - 1] < |At(root, path[..|path| - 1]).children|
    ensures At(root, path) == At(root, path[..|path| - 1]).children[path[|path| - 1]]
  {
    var p := path[..|path| - 1];
    var i := path[|path| - 1];
    assert path == p + [i];
    ValidPathPrefixHelper(root, p, i);
  }

  lemma {:induction false} ValidPathPrefixHelper(root: Node, p: seq<nat>, i: nat)
    requires ValidPath(root, p + [i])
    ensures ValidPath(root, p) && i < |At(root, p).children|
    ensures At(root, p + [i]) == At(root, p).children[i]
    decreases |p|
  {
    if p != [] {
      assert (p + [i])[1..] == p[1..] + [i];
      ValidPathPrefixHelper(root.children[p[0]], p[1..], i);
    } else {
      assert ([] + [i])[1..] == [];
    }
  }

  /** The path to the node above the one `path` leads to (the document's
      own path for the document). */
  function Above(path: seq<nat>): seq<nat>
  {
    if path == [] then [] else path[..|path| - 1]
  }

  /** The position of the node `path` leads to among its siblings. */
  function Position(path: seq<nat>): nat
  {
    if path == [] then 0 else path[|path| - 1]
  }

  /** The nodes at the level of the node `path` leads to: the children of
      the node above it, or the document alone. */
  function Siblings(root: Node, path: seq<nat>): (r: seq<Node>)
    requires ValidPath(root, path)
    ensures Position(path) < |r| && r[Position(path)] == At(root, path)
  {
    if path == [] then [root]
    else
      ValidPathPrefix(root, path);
      At(root, Above(path)).children
  }

  /** Stepping to child `i` of the node at `p`: the child's siblings are
      the children of that node. */
  lemma ChildPath(root: Node, p: seq<nat>, i: nat)
    requires ValidPath(root, p) && i < |At(root, p).children|
    ensures ValidPath(root, p + [i]) && At(root, p + [i]) == At(root, p).children[i]
    ensures Above(p + [i]) == p && Position(p + [i]) == i
    ensures Siblings(root, p + [i]) == At(root, p).children
  {
    ValidPathExtend(root, p, i);
    assert (p + [i])[..|p + [i]| - 1] == p;
  }

  /** The `do { ... } while (ReadNextNode() != NODEDOESNTEXIST)` loop of
      the readers, as a value: `step` applied to the nodes of `ns` from
      position `i` on, each to the state the one before it left, stopping
      at the first failure. */
  function Visit<S>(step: (Node, S) -> Result<S>, ns: seq<Node>, i: nat, s: S): Result<S>
    requires i <= |ns|
    decreases |ns| - i
  {
    if i == |ns| then Ok(s)
    else
      match step(ns[i], s)
      case Fatal(reason) => Fatal(reason)
      case Ok(next) => Visit(step, ns, i + 1, next)
  }

  /** That loop over a reader: the node under the cursor and each of its
      later siblings in turn. The result is `Visit` over the siblings from
      the cursor's position; when the loop completes, the cursor is on the
      last sibling. */
  method VisitSiblings<S>(reader: TextReader, step: (Node, S) -> Result<S>, s0: S) returns (r: Result<S>)
    requires reader.Valid()
    modifies reader
    ensures reader.Valid()
    ensures r == Visit(step, Siblings(reader.document, old(reader.path)), Position(old(reader.path)), s0)
    ensures r.Ok? ==>
              |reader.path| == |old(reader.path)| && Above(reader.path) == Above(old(reader.path)) &&
              Position(reader.path) == |Siblings(reader.document, old(reader.path))| - 1
  {
    ghost var ns := Siblings(reader.document, reader.path);
    ghost var p0 := reader.path;
    var s := s0;
    while true
      invariant reader.Valid() && |reader.path| == |p0| && Above(reader.path) == Above(p0)
      invariant Siblings(reader.document, reader.path) == ns
      invariant Visit(step, ns, Position(p0), s0) == Visit(step, ns, Position(reader.path), s)
      decreases |ns| - Position(reader.path)
    {
      var next := step(reader.Current(), s);
      if next.Fatal? {
        return Fatal(next.reason);
      }
      s := next.value;
      var e := reader.ReadNextNode();
      if e == NodeDoesntExist {
        return Ok(s);
      }
    }
  }

  /** The writing side. `open` is the chain of nodes being written, the
      document first and the current node last; `EndNode` closes the current
      node and appends it to the children of the node that encloses it. */
  class TextWriter {
    var open: seq<Node>

    ghost predicate Valid()
      reads this
    {
      |open| >= 1
    }

    constructor ()
      ensures Valid() && open == [Element("document")]
    {
      open := [Element("document")];
    }

    /** The current node (the document when nothing is open). */
    function Current(): Node
      reads this
      requires Valid()
    {
      open[|open| - 1]
    }

    /** `WriteNode`: a new empty node becomes the current node. */
    method WriteNode(name: string) returns (e: StreamError)
      requires Valid()
      modifies this
      ensures Valid() && e == StreamOk
      ensures open == old(open) + [Element(name)]
    {
      open := open + [Element(name)];
      e := StreamOk;
    }

    /** `WriteNodeAttribute`: sets one attribute of the current element. */
    method WriteNodeAttribute(key: string, value: string) returns (e: StreamError)
      requires Valid() && |open| >= 2
      modifies this
      ensures Valid() && e == StreamOk
      ensures var top := old(Current());
              open == old(open[..|open| - 1]) + [top.(attributes := top.attributes + [Attr(key, value)])]
    {
      var top := open[|open| - 1];
      open := open[..|open| - 1] + [top.(attributes := top.attributes + [Attr(key, value)])];
      e := StreamOk;
    }

    /** `WriteNodeValue`: gives the current element its text. */
    method WriteNodeValue(value: string) returns (e: StreamError)
      requires Valid() && |open| >= 2
      modifies this
      ensures Valid() && e == StreamOk
      ensures open == old(open[..|open| - 1]) + [old(Current()).(value := value)]
    {
      var top := open[|open| - 1];
      open := open[..|open| - 1] + [top.(value := value)];
      e := StreamOk;
    }

    /** `EndNode`: the current element is complete and is appended to the
        children of its parent, which becomes current again. */
    method EndNode() returns (e: StreamError)
      requires Valid() && |open| >= 2
      modifies this
      ensures Valid() && e == StreamOk
      ensures var n := |old(open)|;
              var parent := old(open[n - 2]);
              open == old(open[..n - 2]) + [parent.(children := parent.children + [old(open[n - 1])])]
    {
      var n := |open|;
      var parent := open[n - 2];
      open := open[..n - 2] + [parent.(children := parent.children + [open[n - 1]])];
      e := StreamOk;
    }
  }

  /** The reading side: a cursor into a document that does not change. */
  class TextReader {
    const document: Node
    var path: seq<nat>

    ghost predicate Valid()
      reads this
    {
      ValidPath(document, path)
    }

    /** Opening a stream leaves the cursor on the first top-level node. */
    constructor (document: Node)
      requires |document.children| > 0
      ensures Valid() && this.document == document && path == [0]
    {
      this.document := document;
      path := [0];
    }

    function Current(): Node
      reads this
      requires Valid()
    {
      At(document, path)
    }

    method ReadNodeName() returns (e: StreamError, name: string)
      requires Valid()
      ensures e == StreamOk && name == Current().name
    {
      e := StreamOk;
      name := Current().name;
    }

    method ReadNodeValue() returns (e: StreamError, value: string)
      requires Valid()
      ensures e == StreamOk && value == Current().value
    {
      e := StreamOk;
      value := Current().value;
    }

    /** A missing attribute is reported as NODEDOESNTEXIST with empty text.
        (The XML implementation reports OK with empty text instead.) */
    method ReadNodeAttribute(key: string) returns (e: StreamError, value: string)
      requires Valid()
      ensures Attribute(Current(), key).Some? ==> e == StreamOk && value == Attribute(Current(), key).value
      ensures Attribute(Current(), key).None? ==> e == NodeDoesntExist && value == ""
    {
      var attrs := Current().attributes;
      var i := |attrs|;
      while i > 0 && attrs[i - 1].key != key
        invariant 0 <= i <= |attrs|
        invariant AttributeBelow(attrs, key, i) == Attribute(Current(), key)
      {
        i := i - 1;
      }
      if i > 0 {
        e, value := StreamOk, attrs[i - 1].value;
      } else {
        e, value := NodeDoesntExist, "";
      }
    }

    method ReadChildNode() returns (e: StreamError)
      requires Valid()
      modifies this
      ensures Valid()
      ensures |old(Current()).children| > 0 ==> e == StreamOk && path == old(path) + [0]
      ensures |old(Current()).children| == 0 ==> e == NodeDoesntExist && path == old(path)
    {
      if |Current().children| > 0 {
        ValidPathExtend(document, path, 0);
        path := path + [0];
        e := StreamOk;
      } else {
        e := NodeDoesntExist;
      }
    }

    method ReadNextNode() returns (e: StreamError)
      requires Valid()
      modifies this
      ensures Valid()
      ensures e == StreamOk || e == NodeDoesntExist
      ensures e == StreamOk <==> Position(old(path)) + 1 < |Siblings(document, old(path))|
      ensures e == StreamOk ==>
                |path| == |old(path)| && Above(path) == Above(old(path)) &&
                Position(path) == Position(old(path)) + 1 && Siblings(document, path) == Siblings(document, old(path))
      ensures e != StreamOk ==> path == old(path)
    {
      if path == [] {
        e := NodeDoesntExist;
        return;
      }
      var p := path[..|path| - 1];
      var i := path[|path| - 1];
      ValidPathPrefix(document, path);
      if i + 1 < |At(document, p).children| {
        ChildPath(document, p, i + 1);
        path := p + [i + 1];
        e := StreamOk;
      } else {
        e := NodeDoesntExist;
      }
    }

    method ReadParentNode() returns (e: StreamError)
      requires Valid()
      modifies this
      ensures Valid()
      ensures old(path) != [] ==> e == StreamOk && path == old(path)[..|old(path)| - 1]
      ensures old(path) == [] ==> e == NodeDoesntExist && path == old(path)
    {
      if path != [] {
        ValidPathPrefix(document, path);
        path := path[..|path| - 1];
        e := StreamOk;
      } else {
        e := NodeDoesntExist;
      }
    }
  }
}
