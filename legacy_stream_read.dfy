/** The cursor walks of the older engine's reading side:
    `ReflClassDesc::Deserialize(stream, inst, offset)` and
    `ReflLibrary::Deserialize(stream, memFlags)` move a `TextReader` over
    the nodes whose contents the functions of `LegacyDeserialize` read. */
module LegacyStreamRead {
  import opened Common
  import opened ReflData
  import opened LegacyData
  import opened LegacyLookup
  import opened LegacyDeserialize
  import opened Stream
  import ReflSerialize
  import ReflDeserialize

  /** `ReflClassDesc::Deserialize` over a `TextReader`: when the node under
      the cursor has no children the cursor stays and nothing is written;
      otherwise the cursor steps down, the sibling loop reads each child
      into the storage the one before it left, the cursor climbs back and
      the finalize callback runs. The storage is the one `DeserializeDesc`
      computes for the starting node. */
  method DescDeserialize(reader: TextReader, lib: Library, k: nat, mem: Memory, inst: int, offset: int,
                         hooks: Hooks) returns (r: Result<Memory>)
    requires k < |lib.descs| && reader.Valid()
    modifies reader
    ensures reader.Valid()
    ensures r == DeserializeDesc(lib, k, old(reader.Current()), mem, inst, offset, hooks)
    ensures r.Ok? ==> reader.path == old(reader.path)
  {
    ghost var n := reader.Current();
    ghost var p0 := reader.path;
    var e := reader.ReadChildNode();
    if e == NodeDoesntExist {
      return Ok(mem);
    }
    ChildPath(reader.document, p0, 0);
    var read := (c: Node, m: Memory) => DeserializeChild(lib, k, c, m, inst, offset, hooks);
    var nodes := VisitSiblings(reader, read, mem);
    VisitIsNodes(lib, k, n, 0, mem, inst, offset, hooks, read);
    if nodes.Fatal? {
      return Fatal(nodes.reason);
    }
    e := reader.ReadParentNode();
    r := Ok(FinalizeInst(lib.descs[k], inst, nodes.value, hooks));
  }

  /** The sibling loop with the child reader as its step computes what
      `DeserializeNodes` does. */
  lemma {:induction false} VisitIsNodes(lib: Library, k: nat, n: Node, i: nat, mem: Memory, inst: int, offset: int,
                                        hooks: Hooks, read: (Node, Memory) -> Result<Memory>)
    requires k < |lib.descs| && i <= |n.children|
    requires forall c, m :: read(c, m) == DeserializeChild(lib, k, c, m, inst, offset, hooks)
    ensures Visit(read, n.children, i, mem) == DeserializeNodes(lib, k, n, i, mem, inst, offset, hooks)
    decreases |n.children| - i
  {
    if i < |n.children| {
      var step := read(n.children[i], mem);
      NodesStep(lib, k, n, i, mem, inst, offset, hooks, step);
      if step.Ok? {
        VisitIsNodes(lib, k, n, i + 1, step.value, inst, offset, hooks, read);
      }
    }
  }

  /** One top-level node of `ReflLibrary::Deserialize(stream, memFlags)`
      over the storage and the object returned so far: a node not named
      "Class" is skipped, a "Class" node must carry a `Type`, and a
      registered type has an object created and read from the node at
      offset 0; the created object is the one returned. An unregistered
      type is skipped. */
  function LoadClassNode(lib: Library, c: Node, state: (Memory, int), hooks: Hooks): (r: Result<(Memory, int)>)
    ensures !Loadable(lib, c) ==> r == (if ReflDeserialize.Named(c, ReflSerialize.ClassNode) &&
                                           Attribute(c, ReflSerialize.TypeKey).None?
                                        then Fatal(ReflDeserialize.MissingAttribute) else Ok(state))
    ensures Loadable(lib, c) && r.Ok? ==> r.value.1 == Instance(lib, c, hooks)
    ensures Loadable(lib, c) ==>
              var k := GetClassDesc(lib, NameHash(Attribute(c, ReflSerialize.TypeKey).value)).value;
              match Deserialize(lib, k, c, state.0, Instance(lib, c, hooks), hooks)
              case Fatal(reason) => r == Fatal(reason)
              case Ok(m) => r == Ok((m, Instance(lib, c, hooks)))
  {
    if !ReflDeserialize.Named(c, ReflSerialize.ClassNode) then Ok(state)
    else
      match Attribute(c, ReflSerialize.TypeKey)
      case None => Fatal(ReflDeserialize.MissingAttribute)
      case Some(typeName) =>
        match GetClassDesc(lib, NameHash(typeName))
        case None => Ok(state)
        case Some(k) =>
          var ret := CreateInstance(lib.descs[k], 1, hooks);
          match DeserializeDesc(lib, k, c, state.0, ret, 0, hooks)
          case Fatal(reason) => Fatal(reason)
          case Ok(m) => Ok((m, ret))
  }

  /** A "Class" node whose `Type` names a registered class: the kind of
      node that makes an object. */
  predicate Loadable(lib: Library, c: Node)
  {
    ReflDeserialize.Named(c, ReflSerialize.ClassNode) && Attribute(c, ReflSerialize.TypeKey).Some? &&
    GetClassDesc(lib, NameHash(Attribute(c, ReflSerialize.TypeKey).value)).Some?
  }

  /** The object a loadable node makes: it depends on the node's type and
      the creation function alone, not on what was read before. */
  function Instance(lib: Library, c: Node, hooks: Hooks): int
    requires Loadable(lib, c)
  {
    var k := GetClassDesc(lib, NameHash(Attribute(c, ReflSerialize.TypeKey).value)).value;
    CreateInstance(lib.descs[k], 1, hooks)
  }

  /** The step of the library's sibling loop. */
  function Loader(lib: Library, hooks: Hooks): (Node, (Memory, int)) -> Result<(Memory, int)>
  {
    (c: Node, state: (Memory, int)) => LoadClassNode(lib, c, state, hooks)
  }

  /** The position of the last loadable node of `ns` at or after `i`. */
  function LastLoadable(lib: Library, ns: seq<Node>, i: nat): (r: Option<nat>)
    requires i <= |ns|
    ensures r.Some? ==> i <= r.value < |ns| && Loadable(lib, ns[r.value])
    ensures r.Some? ==> forall j :: r.value < j < |ns| ==> !Loadable(lib, ns[j])
    ensures r.None? ==> forall j :: i <= j < |ns| ==> !Loadable(lib, ns[j])
    decreases |ns| - i
  {
    if i == |ns| then None
    else
      match LastLoadable(lib, ns, i + 1)
      case Some(j) => Some(j)
      case None => if Loadable(lib, ns[i]) then Some(i) else None
  }

  /** When the library's loop completes, the object it returns is the one
      made by the last loadable node, or the one it started with when no
      node is loadable: every later object replaces an earlier one. */
  lemma {:induction false} LoadReturnsLast(lib: Library, ns: seq<Node>, i: nat, state: (Memory, int), hooks: Hooks)
    requires i <= |ns| && Visit(Loader(lib, hooks), ns, i, state).Ok?
    ensures LastLoadable(lib, ns, i).None? ==> Visit(Loader(lib, hooks), ns, i, state).value.1 == state.1
    ensures LastLoadable(lib, ns, i).Some? ==>
              Visit(Loader(lib, hooks), ns, i, state).value.1 == Instance(lib, ns[LastLoadable(lib, ns, i).value], hooks)
    decreases |ns| - i
  {
    if i < |ns| {
      var next := LoadClassNode(lib, ns[i], state, hooks);
      assert Loader(lib, hooks)(ns[i], state) == next;
      LoadReturnsLast(lib, ns, i + 1, next.value, hooks);
    }
  }
}
