/** The cursor walks of the reading side: `DeserializeMembers` and
    `ReflLibrary::Deserialize(stream, memFlags)` move a `TextReader` over
    the nodes whose contents the functions of `ReflDeserialize` read. */
module ReflStreamRead {
  import opened Common
  import opened ReflData
  import opened ReflLookup
  import opened ReflCasting
  import opened ReflSerialize
  import opened ReflDeserialize
  import opened Stream

  /** `DeserializeMembers(stream, inst, offset)` over a `TextReader`: the
      cursor steps down to the first child of the node it is on, the
      sibling loop reads each child into the storage the one before it
      left, and the cursor climbs back. The storage is the one
      `DeserializeNodes` computes over the children of the starting node;
      when the walk completes, the cursor is back on that node. */
  method DeserializeMembers(reader: TextReader, reg: Registry, k: nat, mem: Memory, base: int, offset: int,
                            hooks: Hooks) returns (r: Result<Memory>)
    requires k < |reg.descs| && reader.Valid()
    modifies reader
    ensures reader.Valid()
    ensures r == DeserializeNodes(reg, k, old(reader.Current()), 0, mem, base, offset, hooks)
    ensures r.Ok? ==> reader.path == old(reader.path)
  {
    ghost var n := reader.Current();
    ghost var p0 := reader.path;
    var e := reader.ReadChildNode();
    if e == NodeDoesntExist {
      return Ok(mem);
    }
    ChildPath(reader.document, p0, 0);
    var read := (c: Node, m: Memory) => DeserializeChild(reg, k, c, m, base, offset, hooks);
    r := VisitSiblings(reader, read, mem);
    VisitIsNodes(reg, k, n, 0, mem, base, offset, hooks, read);
    if r.Ok? {
      e := reader.ReadParentNode();
    }
  }

  /** The sibling loop with the child reader as its step computes what
      `DeserializeNodes` does. */
  lemma {:induction false} VisitIsNodes(reg: Registry, k: nat, n: Node, i: nat, mem: Memory, base: int, offset: int,
                                        hooks: Hooks, read: (Node, Memory) -> Result<Memory>)
    requires k < |reg.descs| && i <= |n.children|
    requires forall c, m :: read(c, m) == DeserializeChild(reg, k, c, m, base, offset, hooks)
    ensures Visit(read, n.children, i, mem) == DeserializeNodes(reg, k, n, i, mem, base, offset, hooks)
    decreases |n.children| - i
  {
    if i < |n.children| {
      var step := read(n.children[i], mem);
      NodesStep(reg, k, n, i, n.children[i], mem, base, offset, hooks, step);
      if step.Ok? {
        VisitIsNodes(reg, k, n, i + 1, step.value, base, offset, hooks, read);
      }
    }
  }

  /** One top-level node of `ReflLibrary::Deserialize(stream, memFlags)`
      over the storage and the object returned so far: a node not named
      "Class" is skipped, a "Class" node must carry a `Type`, and a
      registered type has an object created, read from the node at offset
      0, and its `ReflClass` returned; an unregistered type is skipped. */
  function LoadClassNode(reg: Registry, c: Node, state: (Memory, int), hooks: Hooks): (r: Result<(Memory, int)>)
    ensures !Loadable(reg, c) ==> r == (if Named(c, ClassNode) && Attribute(c, TypeKey).None?
                                        then Fatal(MissingAttribute) else Ok(state))
    ensures Loadable(reg, c) && r.Ok? ==> Instance(reg, c, hooks) == Ok(r.value.1)
  {
    if !Named(c, ClassNode) then Ok(state)
    else
      match Attribute(c, TypeKey)
      case None => Fatal(MissingAttribute)
      case Some(typeName) =>
        match GetClassDesc(reg, NameHash(typeName))
        case None => Ok(state)
        case Some(k) =>
          match Create(reg.descs[k], 1, hooks)
          case Fatal(reason) => Fatal(reason)
          case Ok(base) =>
            match DeserializeDesc(reg, k, c, state.0, base, 0, hooks)
            case Fatal(reason) => Fatal(reason)
            case Ok(m) =>
              match CastVoid(reg, k, base, reg.descs[k].hash, ReflClassType)
              case Fatal(reason) => Fatal(reason)
              case Ok(refl) => Ok((m, refl))
  }

  /** A "Class" node whose `Type` names a registered class: the kind of
      node that makes an object. */
  predicate Loadable(reg: Registry, c: Node)
  {
    Named(c, ClassNode) && Attribute(c, TypeKey).Some? &&
    GetClassDesc(reg, NameHash(Attribute(c, TypeKey).value)).Some?
  }

  /** The `ReflClass` of the object a loadable node makes: it depends on the
      node's type and the creation function alone, not on what was read
      before. */
  function Instance(reg: Registry, c: Node, hooks: Hooks): Result<int>
    requires Loadable(reg, c)
  {
    var k := GetClassDesc(reg, NameHash(Attribute(c, TypeKey).value)).value;
    match Create(reg.descs[k], 1, hooks)
    case Fatal(reason) => Fatal(reason)
    case Ok(base) => CastVoid(reg, k, base, reg.descs[k].hash, ReflClassType)
  }

  /** The step of the library's sibling loop. */
  function Loader(reg: Registry, hooks: Hooks): (Node, (Memory, int)) -> Result<(Memory, int)>
  {
    (c: Node, state: (Memory, int)) => LoadClassNode(reg, c, state, hooks)
  }

  /** The position of the last loadable node of `ns` at or after `i`. */
  function LastLoadable(reg: Registry, ns: seq<Node>, i: nat): (r: Option<nat>)
    requires i <= |ns|
    ensures r.Some? ==> i <= r.value < |ns| && Loadable(reg, ns[r.value])
    ensures r.Some? ==> forall j :: r.value < j < |ns| ==> !Loadable(reg, ns[j])
    ensures r.None? ==> forall j :: i <= j < |ns| ==> !Loadable(reg, ns[j])
    decreases |ns| - i
  {
    if i == |ns| then None
    else
      match LastLoadable(reg, ns, i + 1)
      case Some(j) => Some(j)
      case None => if Loadable(reg, ns[i]) then Some(i) else None
  }

  /** When the library's loop completes, the object it returns is the one
      made by the last loadable node, or the one it started with when no
      node is loadable: every later object replaces an earlier one. */
  lemma {:induction false} LoadReturnsLast(reg: Registry, ns: seq<Node>, i: nat, state: (Memory, int), hooks: Hooks)
    requires i <= |ns| && Visit(Loader(reg, hooks), ns, i, state).Ok?
    ensures LastLoadable(reg, ns, i).None? ==> Visit(Loader(reg, hooks), ns, i, state).value.1 == state.1
    ensures LastLoadable(reg, ns, i).Some? ==>
              Instance(reg, ns[LastLoadable(reg, ns, i).value], hooks) == Ok(Visit(Loader(reg, hooks), ns, i, state).value.1)
    decreases |ns| - i
  {
    if i < |ns| {
      var next := LoadClassNode(reg, ns[i], state, hooks);
      assert Loader(reg, hooks)(ns[i], state) == next;
      LoadReturnsLast(reg, ns, i + 1, next.value, hooks);
    }
  }
}
