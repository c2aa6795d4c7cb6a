/** `ReflTypeDesc::Deserialize`, `DeserializeMembers`, `ReflMember::Deserialize`
    and its conversion paths, and `ReflLibrary::Deserialize`: reading an
    object back from the node tree `Serialize` writes. Each function reads
    the subtree under the node the cursor is on and returns the storage
    after the writes it makes; the cursor itself comes back to that node
    (`ReflStreamRead` moves a `TextReader` over the same nodes). */
module ReflDeserialize {
  import opened Common
  import opened TextFormat
  import opened PrimitiveTable
  import opened ReflData
  import opened ReflLookup
  import opened ReflMarshal
  import opened ReflCasting
  import opened ReflSerialize
  import opened Stream

  const MissingVersion := "Need to log this error"
  const MissingAttribute := "Need to log this error message"
  const UnboundDeprecated := "Need to log this"
  const MalformedClassMember := "Need to log an error here"
  const UnsupportedType := "Log: Unsupported type?"
  const ScratchTooSmall := "Array is too small"
  /** A member function called through the NULL a failed descriptor lookup
      returns. */
  const NullDesc := "member call through a NULL descriptor"

  /** The scratch buffer a converted value is decoded into, in bytes. */
  const ScratchSize := 16
  /** The length `fromString` is given for a member's own value and for a
      converted one. */
  const ValueLength := 256
  const ScratchLength := 255

  /** `StrICmp(nodeName, L"<name>", len) == 0` with `len` the length of the
      literal: a node name that starts with the literal, in any case. */
  predicate Named(n: Node, name: string)
  {
    EqualIgnoringCaseWithin(n.name, name, |name|)
  }

  /** The `Version` attribute read with `%x`; text without hexadecimal
      digits leaves the version 0. */
  function ReadVersion(n: Node): (r: Result<nat>)
    ensures Attribute(n, VersionKey).None? <==> r == Fatal(MissingVersion)
    ensures r.Ok? && ParseHex(Attribute(n, VersionKey).value).Some? ==>
              r.value == ParseHex(Attribute(n, VersionKey).value).value
    ensures r.Ok? && ParseHex(Attribute(n, VersionKey).value).None? ==> r.value == 0
  {
    match Attribute(n, VersionKey)
    case None => Fatal(MissingVersion)
    case Some(text) => Ok(if ParseHex(text).Some? then ParseHex(text).value else 0)
  }

  /** An empty `Version`, what the XML reader gives for a missing one, reads
      as version 0. */
  lemma EmptyVersionReadsZero(n: Node)
    requires Attribute(n, VersionKey) == Some("")
    ensures ReadVersion(n) == Ok(0)
  {
    assert ParseHex("") == None by {
      assert SkipBlanks("") == "";
      assert DigitRun("", 16) == [];
    }
  }

  /** `FinalizeInst`: the finalize callback, when one is registered, on the
      `ReflClass` of the object that starts at `base`. */
  function FinalizeInst(d: Desc, base: int, mem: Memory, hooks: Hooks): (r: Memory)
    ensures d.finalizeFunc.None? ==> r == mem
  {
    if d.finalizeFunc.Some? then hooks.finalize(d.finalizeFunc.value, CastToReflClass(d, base), mem) else mem
  }

  /** `ReflTypeDesc::Deserialize(stream, inst, offset)` on node `n`: the
      version, then either the versioning callback or the member walk, then
      the finalize callback. */
  function DeserializeDesc(reg: Registry, k: nat, n: Node, mem: Memory, base: int, offset: int,
                           hooks: Hooks): (r: Result<Memory>)
    requires k < |reg.descs|
    ensures Attribute(n, VersionKey).None? ==> r == Fatal(MissingVersion)
    decreases n, 2
  {
    var d := reg.descs[k];
    match ReadVersion(n)
    case Fatal(reason) => Fatal(reason)
    case Ok(version) =>
      var walked :=
        if d.versioningFunc.Some?
        then Ok(hooks.versioning(d.versioningFunc.value, d.hash, version, n, CastToReflClass(d, base), mem))
        else DeserializeNodes(reg, k, n, 0, mem, base, offset, hooks);
      match walked
      case Fatal(reason) => Fatal(reason)
      case Ok(m) => Ok(FinalizeInst(d, base, m, hooks))
  }

  /** The `do`/`while` of `DeserializeMembers` over the children of `n` from
      position `i` on, each reading into the storage the one before it left. */
  function DeserializeNodes(reg: Registry, k: nat, n: Node, i: nat, mem: Memory, base: int, offset: int,
                            hooks: Hooks): (r: Result<Memory>)
    requires k < |reg.descs| && i <= |n.children|
    decreases n, 1, |n.children| - i
  {
    if i == |n.children| then Ok(mem)
    else
      match DeserializeChild(reg, k, n.children[i], mem, base, offset, hooks)
      case Fatal(reason) => Fatal(reason)
      case Ok(m) => DeserializeNodes(reg, k, n, i + 1, m, base, offset, hooks)
  }

  /** One child of the node being read: a "DataMember" node is read into a
      member, a "BaseClass" node into a direct parent, and any other node is
      skipped. */
  function DeserializeChild(reg: Registry, k: nat, c: Node, mem: Memory, base: int, offset: int,
                            hooks: Hooks): (r: Result<Memory>)
    requires k < |reg.descs|
    decreases c, 5
  {
    if Named(c, DataMemberNode) then DataMemberNodeRead(reg, k, c, mem, base, offset, hooks)
    else if Named(c, BaseClassNode) then BaseClassNodeRead(reg, k, c, mem, base, offset, hooks)
    else Ok(mem)
  }

  /** A "DataMember" node is read into the member `FindMember` finds for its
      name, at `offset` plus the offset of the part that has it; a name that
      finds no member is skipped. */
  function DataMemberNodeRead(reg: Registry, k: nat, c: Node, mem: Memory, base: int, offset: int,
                              hooks: Hooks): (r: Result<Memory>)
    requires k < |reg.descs|
    ensures Attribute(c, NameKey).None? ==> r == Fatal(MissingAttribute)
    decreases c, 4
  {
    match Attribute(c, NameKey)
    case None => Fatal(MissingAttribute)
    case Some(name) =>
      match FindMember(reg, k, NameHash(name))
      case Fatal(reason) => Fatal(reason)
      case Ok(None) => Ok(mem)
      case Ok(Some(f)) =>
        MemberDeserialize(reg, FoundMember(reg, f), NameHash(name), c, mem, CastToReflClass(reg.descs[k], base),
                          base, offset + f.offset, hooks)
  }

  /** A "BaseClass" node is read as the direct parent it names, at `offset`
      plus that parent's `baseOffset`; a type that is not registered or not
      a direct parent is skipped. */
  function BaseClassNodeRead(reg: Registry, k: nat, c: Node, mem: Memory, base: int, offset: int,
                             hooks: Hooks): (r: Result<Memory>)
    requires k < |reg.descs|
    ensures Attribute(c, TypeKey).None? ==> r == Fatal(MissingAttribute)
    ensures Attribute(c, TypeKey).Some? && GetClassDesc(reg, NameHash(Attribute(c, TypeKey).value)).None? ==>
              r == Ok(mem)
    decreases c, 4
  {
    match Attribute(c, TypeKey)
    case None => Fatal(MissingAttribute)
    case Some(typeName) =>
      match BaseClassTarget(reg, k, typeName)
      case None => Ok(mem)
      case Some((pk, i)) => DeserializeDesc(reg, pk, c, mem, base, offset + reg.descs[k].parents[i].baseOffset, hooks)
  }

  /** The registered class `pk` that `typeName` names, with its position
      `i` among the direct parents of descriptor `k`, if it is one. */
  function BaseClassTarget(reg: Registry, k: nat, typeName: string): (r: Option<(nat, nat)>)
    requires k < |reg.descs|
    ensures GetClassDesc(reg, NameHash(typeName)).None? ==> r.None?
    ensures r.Some? ==> r.value.0 < |reg.descs| && r.value.1 < |reg.descs[k].parents| &&
                        reg.descs[k].parents[r.value.1].parentHash == reg.descs[r.value.0].hash
  {
    match GetClassDesc(reg, NameHash(typeName))
    case None => None
    case Some(pk) =>
      match FindParent(reg.descs[k], reg.descs[pk].hash)
      case None => None
      case Some(i) => Some((pk, i))
  }

  /** `ReflMember::Deserialize` for a "DataMember" node `c`: a matching type
      reads the value into the member; a different type goes to the
      conversion function if there is one; without one nothing is written. */
  function MemberDeserialize(reg: Registry, m: Member, nameHash: Hash, c: Node, mem: Memory, inst: int,
                             base: int, offset: int, hooks: Hooks): (r: Result<Memory>)
    ensures Attribute(c, TypeKey).None? ==> r == Fatal(MissingAttribute)
    ensures (Attribute(c, TypeKey).Some? && m.convFunc.None? &&
             !TypeMatches(m.index, NameHash(Attribute(c, TypeKey).value), m.typeHash)) ==> r == Ok(mem)
    decreases c, 3
  {
    match Attribute(c, TypeKey)
    case None => Fatal(MissingAttribute)
    case Some(typeName) =>
      if TypeMatches(m.index, NameHash(typeName), m.typeHash) then MatchingRead(reg, m, c, mem, base, offset, hooks)
      else if m.convFunc.Some? then ConvertedRead(reg, m, nameHash, NameHash(typeName), c, mem, inst, hooks)
      else Ok(mem)
  }

  /** A value of the member's own type: a class member's nested "Class"
      node is read into the embedded object; a deprecated member's value
      goes into its temp binding, which must be set; any other value into
      the member's storage. */
  function MatchingRead(reg: Registry, m: Member, c: Node, mem: Memory, base: int, offset: int,
                        hooks: Hooks): (r: Result<Memory>)
    ensures m.index != Class && m.deprecated && m.tempBinding == NullAddress ==> r == Fatal(UnboundDeprecated)
    decreases c, 2
  {
    if m.index == Class then DeserializeClassMember(reg, m, c, mem, base, offset, hooks)
    else if m.deprecated && m.tempBinding == NullAddress then Fatal(UnboundDeprecated)
    else
      var address := if m.deprecated then m.tempBinding else base + m.offset + offset;
      match MemberParse(reg, m.index, m.typeHash, c.value, ValueLength, CellAt(mem, address),
                        hooks.garbage, hooks.codec)
      case Fatal(reason) => Fatal(reason)
      case Ok(cell) => Ok(mem[address := cell])
  }

  /** A value of another type, for a member with a conversion function: the
      old type must be one the table knows; an old class value is handed
      over member by member from its nested "Class" node, any other value
      is decoded as the old type first. */
  function ConvertedRead(reg: Registry, m: Member, nameHash: Hash, typeHash: Hash, c: Node, mem: Memory, inst: int,
                         hooks: Hooks): (r: Result<Memory>)
    requires m.convFunc.Some?
    ensures DetermineTypeIndex(typeHash).None? ==> r == Fatal(UnsupportedType)
    ensures DetermineTypeIndex(typeHash) == Some(Class) && |c.children| == 0 ==> r == Ok(mem)
    decreases c, 2
  {
    match DetermineTypeIndex(typeHash)
    case None => Fatal(UnsupportedType)
    case Some(oldType) =>
      if oldType == Class then
        if |c.children| == 0 then Ok(mem)
        else ConvertClassMember(reg, m, c.children[0], 0, mem, inst, hooks)
      else ConvertDataMember(reg, m, nameHash, oldType, c.value, mem, inst, hooks)
  }

  /** `DeserializeClassMember`: the member's type must be registered and the
      node must hold a "Class" node, which is read into the embedded object
      when its `Type` is the member's type. */
  function DeserializeClassMember(reg: Registry, m: Member, c: Node, mem: Memory, base: int, offset: int,
                                  hooks: Hooks): (r: Result<Memory>)
    ensures GetClassDesc(reg, m.typeHash).None? ==> r == Fatal(UnregisteredType)
    ensures GetClassDesc(reg, m.typeHash).Some? && (|c.children| == 0 || !Named(c.children[0], ClassNode)) ==>
              r == Fatal(MalformedClassMember)
    decreases c, 1
  {
    match GetClassDesc(reg, m.typeHash)
    case None => Fatal(UnregisteredType)
    case Some(sk) =>
      if |c.children| == 0 || !Named(c.children[0], ClassNode) then Fatal(MalformedClassMember)
      else
        var e := c.children[0];
        match Attribute(e, TypeKey)
        case None => Fatal(MissingAttribute)
        case Some(typeName) =>
          if NameHash(typeName) == m.typeHash then DeserializeDesc(reg, sk, e, mem, base, offset + m.offset, hooks)
          else Ok(mem)
  }

  /** `ConvertDataMember`: the text decoded by the old type's marshaler into
      an uninitialised 16-byte scratch buffer, then handed to the member's
      conversion function with the name read and the old type's hash. */
  function ConvertDataMember(reg: Registry, m: Member, nameHash: Hash, oldType: Kind, text: string,
                             mem: Memory, inst: int, hooks: Hooks): (r: Result<Memory>)
    requires m.convFunc.Some?
    ensures r.Ok? <==> MemberParse(reg, oldType, m.typeHash, text, ScratchLength, Int(hooks.garbage),
                                   hooks.garbage, hooks.codec).Ok?
    ensures r.Ok? ==>
              var decoded := MemberParse(reg, oldType, m.typeHash, text, ScratchLength, Int(hooks.garbage),
                                         hooks.garbage, hooks.codec).value;
              r.value == hooks.convert(m.convFunc.value, inst, nameHash, TypeHash(oldType), decoded, mem)
  {
    ScratchFits(oldType);
    if TypeSize(oldType) > ScratchSize then Fatal(ScratchTooSmall)
    else
      match MemberParse(reg, oldType, m.typeHash, text, ScratchLength, Int(hooks.garbage), hooks.garbage,
                        hooks.codec)
      case Fatal(reason) => Fatal(reason)
      case Ok(decoded) => Ok(hooks.convert(m.convFunc.value, inst, nameHash, TypeHash(oldType), decoded, mem))
  }

  /** Every kind's value fits the conversion scratch buffer, so its size
      check never stops a conversion. */
  lemma ScratchFits(k: Kind)
    ensures TypeSize(k) <= ScratchSize
  {
  }

  /** `ConvertClassMember` over the children of the old value's "Class"
      node `n` from position `i` on: each "DataMember" node is converted
      under its own name and type, each "BaseClass" node is walked the same
      way, and other nodes are skipped. */
  function ConvertClassMember(reg: Registry, m: Member, n: Node, i: nat, mem: Memory, inst: int,
                              hooks: Hooks): (r: Result<Memory>)
    requires m.convFunc.Some? && i <= |n.children|
    ensures (forall j :: i <= j < |n.children| ==> !Named(n.children[j], DataMemberNode) &&
                                                   !Named(n.children[j], BaseClassNode)) ==> r == Ok(mem)
    decreases n, |n.children| - i
  {
    if i == |n.children| then Ok(mem)
    else
      var c := n.children[i];
      var here :=
        if Named(c, DataMemberNode) then
          match (Attribute(c, NameKey), Attribute(c, TypeKey))
          case (None, _) => Fatal(MissingAttribute)
          case (_, None) => Fatal(MissingAttribute)
          case (Some(name), Some(typeName)) =>
            match DetermineTypeIndex(NameHash(typeName))
            case None => Fatal(UnsupportedType)
            case Some(oldType) => ConvertDataMember(reg, m, NameHash(name), oldType, c.value, mem, inst, hooks)
        else if Named(c, BaseClassNode) then ConvertClassMember(reg, m, c, 0, mem, inst, hooks)
        else Ok(mem);
      match here
      case Fatal(reason) => Fatal(reason)
      case Ok(next) => ConvertClassMember(reg, m, n, i + 1, next, inst, hooks)
  }

  /** `Deserialize(stream, ReflClass *inst)` of descriptor `k`: the walk
      starts at the object's start, at offset 0. */
  function Deserialize(reg: Registry, k: nat, n: Node, mem: Memory, inst: int, hooks: Hooks): (r: Result<Memory>)
    requires k < |reg.descs|
    ensures Attribute(n, VersionKey).None? ==> r == Fatal(MissingVersion)
    ensures reg.descs[k].versioningFunc.None? && reg.descs[k].finalizeFunc.None? && ReadVersion(n).Ok? ==>
              r == DeserializeNodes(reg, k, n, 0, mem, CastToBase(reg.descs[k], inst), 0, hooks)
  {
    DeserializeDesc(reg, k, n, mem, CastToBase(reg.descs[k], inst), 0, hooks)
  }

  /** `ReflLibrary::Deserialize(stream, inst)`: the descriptor of the type
      the object is stamped with; an unregistered stamp is dereferenced as
      NULL. */
  function DeserializeInto(reg: Registry, n: Node, mem: Memory, inst: int, hooks: Hooks): (r: Result<Memory>)
    ensures GetClassDesc(reg, GetType(mem, inst)).None? ==> r == Fatal(NullDesc)
    ensures GetClassDesc(reg, GetType(mem, inst)).Some? ==>
              r == Deserialize(reg, GetClassDesc(reg, GetType(mem, inst)).value, n, mem, inst, hooks)
  {
    match GetClassDesc(reg, GetType(mem, inst))
    case None => Fatal(NullDesc)
    case Some(k) => Deserialize(reg, k, n, mem, inst, hooks)
  }

  /** The walk at child `c`, the `i`-th: a failure there is the walk's
      failure, otherwise it goes on from child `i + 1` over what `c` left. */
  lemma NodesStep(reg: Registry, k: nat, n: Node, i: nat, c: Node, mem: Memory, base: int, offset: int,
                  hooks: Hooks, step: Result<Memory>)
    requires k < |reg.descs| && i < |n.children| && c == n.children[i]
    requires step == DeserializeChild(reg, k, c, mem, base, offset, hooks)
    ensures step.Fatal? ==> DeserializeNodes(reg, k, n, i, mem, base, offset, hooks) == step
    ensures step.Ok? ==>
              DeserializeNodes(reg, k, n, i, mem, base, offset, hooks) ==
              DeserializeNodes(reg, k, n, i + 1, step.value, base, offset, hooks)
  { }

  /** Past the last child the walk leaves the storage as it is. */
  lemma NodesEnd(reg: Registry, k: nat, n: Node, mem: Memory, base: int, offset: int, hooks: Hooks)
    requires k < |reg.descs|
    ensures DeserializeNodes(reg, k, n, |n.children|, mem, base, offset, hooks) == Ok(mem)
  { }

  /** A "DataMember" child is read by `DataMemberNodeRead`. */
  lemma DataMemberChild(reg: Registry, k: nat, c: Node, mem: Memory, base: int, offset: int, hooks: Hooks)
    requires k < |reg.descs| && Named(c, DataMemberNode)
    ensures DeserializeChild(reg, k, c, mem, base, offset, hooks) == DataMemberNodeRead(reg, k, c, mem, base, offset, hooks)
  {
  }

  /** A "DataMember" node whose name hashes to `h` and finds member `m` at
      offset `o` is read into that member. */
  lemma FoundMemberRead(reg: Registry, k: nat, c: Node, mem: Memory, base: int, offset: int, hooks: Hooks,
                        name: string, h: Hash, f: Found, m: Member, o: int, inst: int)
    requires k < |reg.descs| && Attribute(c, NameKey) == Some(name) && h == NameHash(name)
    requires FindMember(reg, k, h) == Ok(Some(f))
    requires ValidFound(reg, f) && m == FoundMember(reg, f) && o == offset + f.offset
    requires inst == CastToReflClass(reg.descs[k], base)
    ensures DataMemberNodeRead(reg, k, c, mem, base, offset, hooks) == MemberDeserialize(reg, m, h, c, mem, inst, base, o, hooks)
  { }

  /** A value of the member's own type is read by `MatchingRead`. */
  lemma MatchingType(reg: Registry, m: Member, nameHash: Hash, c: Node, mem: Memory, inst: int, base: int,
                     offset: int, hooks: Hooks, typeName: string)
    requires Attribute(c, TypeKey) == Some(typeName) && TypeMatches(m.index, NameHash(typeName), m.typeHash)
    ensures MemberDeserialize(reg, m, nameHash, c, mem, inst, base, offset, hooks) ==
            MatchingRead(reg, m, c, mem, base, offset, hooks)
  {
  }

  /** A live data member's value is parsed into its own storage. */
  lemma DataMemberRead(reg: Registry, m: Member, c: Node, mem: Memory, base: int, offset: int, hooks: Hooks,
                       address: int, cell: Cell)
    requires m.index != Class && !m.deprecated && address == base + m.offset + offset
    requires MemberParse(reg, m.index, m.typeHash, c.value, ValueLength, CellAt(mem, address),
                         hooks.garbage, hooks.codec) == Ok(cell)
    ensures MatchingRead(reg, m, c, mem, base, offset, hooks) == Ok(mem[address := cell])
  {
  }

  /** A "DataMember" node that names member `m`, with a type the member
      accepts and a text that parses to `c` over the storage it is read
      into. */
  predicate ReadableNode(reg: Registry, m: Member, node: Node, current: Cell, garbage: int, codec: Codec, c: Cell)
  {
    m.index != Class && Named(node, DataMemberNode) && Attribute(node, NameKey) == Some(m.name) &&
    Attribute(node, TypeKey).Some? && TypeMatches(m.index, NameHash(Attribute(node, TypeKey).value), m.typeHash) &&
    MemberParse(reg, m.index, m.typeHash, node.value, ValueLength, current, garbage, codec) == Ok(c)
  }

  /** A readable "DataMember" child whose name finds live member `j` of
      `k` itself is read by storing the cell its text parses to at the
      member's address, and nothing else. */
  lemma ReadableChildRead(reg: Registry, k: nat, j: nat, node: Node, cur: Memory, base: int, offset: int, a: int,
                          hooks: Hooks, c: Cell)
    requires k < |reg.descs| && j < |reg.descs[k].members| && !reg.descs[k].members[j].deprecated
    requires a == base + reg.descs[k].members[j].offset + offset
    requires FindMember(reg, k, NameHash(reg.descs[k].members[j].name)) == Ok(Some(Found(k, j, 0)))
    requires ReadableNode(reg, reg.descs[k].members[j], node, CellAt(cur, a), hooks.garbage, hooks.codec, c)
    ensures DeserializeChild(reg, k, node, cur, base, offset, hooks) == Ok(cur[a := c])
  {
    var m := reg.descs[k].members[j];
    var inst := CastToReflClass(reg.descs[k], base);
    DataMemberChild(reg, k, node, cur, base, offset, hooks);
    FoundMemberRead(reg, k, node, cur, base, offset, hooks, m.name, NameHash(m.name), Found(k, j, 0), m, offset, inst);
    ReadableNodeRead(reg, m, NameHash(m.name), node, cur, inst, base, offset, a, hooks, c);
  }

  /** A live member reads a readable node by storing the cell its text
      parses to. */
  lemma ReadableNodeRead(reg: Registry, m: Member, nameHash: Hash, node: Node, cur: Memory, inst: int, base: int,
                         offset: int, a: int, hooks: Hooks, c: Cell)
    requires !m.deprecated && a == base + m.offset + offset
    requires ReadableNode(reg, m, node, CellAt(cur, a), hooks.garbage, hooks.codec, c)
    ensures MemberDeserialize(reg, m, nameHash, node, cur, inst, base, offset, hooks) == Ok(cur[a := c])
  {
    MatchingType(reg, m, nameHash, node, cur, inst, base, offset, hooks, Attribute(node, TypeKey).value);
    DataMemberRead(reg, m, node, cur, base, offset, hooks, a, c);
  }

  /** Children that are neither "DataMember" nor "BaseClass" nodes are
      skipped: the walk over them leaves the storage as it was. */
  lemma {:induction false} OtherNodesSkipped(reg: Registry, k: nat, n: Node, i: nat, mem: Memory, base: int,
                                             offset: int, hooks: Hooks)
    requires k < |reg.descs| && i <= |n.children|
    requires forall j :: i <= j < |n.children| ==>
               !Named(n.children[j], DataMemberNode) && !Named(n.children[j], BaseClassNode)
    ensures DeserializeNodes(reg, k, n, i, mem, base, offset, hooks) == Ok(mem)
    decreases |n.children| - i
  {
    if i < |n.children| {
      OtherNodesSkipped(reg, k, n, i + 1, mem, base, offset, hooks);
    }
  }
}
