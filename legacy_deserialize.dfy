/** `ReflClassDesc::Deserialize`, `ReflMember::Deserialize` and its
    conversion paths in the older engine: reading an object back from the
    node tree `Serialize` writes. Each function reads the subtree under the
    node the cursor is on and returns the storage after the writes it makes.
    Every write lands at `inst` plus the offsets accumulated on the way
    down, and every finalize callback, a parent's or an embedded member's
    included, is handed `inst` itself. */
module LegacyDeserialize {
  import opened Common
  import opened PrimitiveTable
  import opened ReflData
  import opened LegacyData
  import opened LegacyLookup
  import opened LegacyMarshal
  import opened LegacySerialize
  import opened Stream
  import ReflSerialize
  import ReflDeserialize

  /** `FinalizeInst(inst)`: the finalize callback, when one is registered. */
  function FinalizeInst(d: ClassDesc, inst: int, mem: Memory, hooks: Hooks): (r: Memory)
    ensures d.finalizeFunc.None? ==> r == mem
    ensures d.finalizeFunc.Some? ==> r == hooks.finalize(d.finalizeFunc.value, inst, mem)
  {
    if d.finalizeFunc.Some? then hooks.finalize(d.finalizeFunc.value, inst, mem) else mem
  }

  /** `ReflClassDesc::Deserialize(stream, inst, offset)` on node `n`: a node
      without children is left at once, without the finalize callback;
      otherwise every child is read and then the callback runs. */
  function DeserializeDesc(lib: Library, k: nat, n: Node, mem: Memory, inst: int, offset: int,
                           hooks: Hooks): (r: Result<Memory>)
    requires k < |lib.descs|
    ensures |n.children| == 0 ==> r == Ok(mem)
    ensures |n.children| > 0 ==>
              match DeserializeNodes(lib, k, n, 0, mem, inst, offset, hooks)
              case Fatal(reason) => r == Fatal(reason)
              case Ok(m) => r == Ok(FinalizeInst(lib.descs[k], inst, m, hooks))
    decreases n, 2
  {
    if |n.children| == 0 then Ok(mem)
    else
      match DeserializeNodes(lib, k, n, 0, mem, inst, offset, hooks)
      case Fatal(reason) => Fatal(reason)
      case Ok(m) => Ok(FinalizeInst(lib.descs[k], inst, m, hooks))
  }

  /** The `do`/`while` over the children of `n` from position `i` on, each
      reading into the storage the one before it left. */
  function DeserializeNodes(lib: Library, k: nat, n: Node, i: nat, mem: Memory, inst: int, offset: int,
                            hooks: Hooks): (r: Result<Memory>)
    requires k < |lib.descs| && i <= |n.children|
    decreases n, 1, |n.children| - i
  {
    if i == |n.children| then Ok(mem)
    else
      match DeserializeChild(lib, k, n.children[i], mem, inst, offset, hooks)
      case Fatal(reason) => Fatal(reason)
      case Ok(m) => DeserializeNodes(lib, k, n, i + 1, m, inst, offset, hooks)
  }

  /** One child: a "DataMember" node is read into a member, a "BaseClass"
      node into a direct parent, and any other node is skipped. */
  function DeserializeChild(lib: Library, k: nat, c: Node, mem: Memory, inst: int, offset: int,
                            hooks: Hooks): (r: Result<Memory>)
    requires k < |lib.descs|
    ensures (!ReflDeserialize.Named(c, ReflSerialize.DataMemberNode) &&
             !ReflDeserialize.Named(c, ReflSerialize.BaseClassNode)) ==> r == Ok(mem)
    decreases c, 5
  {
    if ReflDeserialize.Named(c, ReflSerialize.DataMemberNode) then DataMemberNodeRead(lib, k, c, mem, inst, offset, hooks)
    else if ReflDeserialize.Named(c, ReflSerialize.BaseClassNode) then BaseClassNodeRead(lib, k, c, mem, inst, offset, hooks)
    else Ok(mem)
  }

  /** A "DataMember" node must carry a `Name`; it is read into the member
      `FindMember` finds for it, at `offset` plus the offset of the part
      that has it. A name that finds no member is skipped. */
  function DataMemberNodeRead(lib: Library, k: nat, c: Node, mem: Memory, inst: int, offset: int,
                              hooks: Hooks): (r: Result<Memory>)
    requires k < |lib.descs|
    ensures Attribute(c, ReflSerialize.NameKey).None? ==> r == Fatal(ReflDeserialize.MissingAttribute)
    ensures (Attribute(c, ReflSerialize.NameKey).Some? &&
             FindMember(lib, k, NameHash(Attribute(c, ReflSerialize.NameKey).value)) == Ok(None)) ==> r == Ok(mem)
    decreases c, 4
  {
    match Attribute(c, ReflSerialize.NameKey)
    case None => Fatal(ReflDeserialize.MissingAttribute)
    case Some(name) =>
      match FindMember(lib, k, NameHash(name))
      case Fatal(reason) => Fatal(reason)
      case Ok(None) => Ok(mem)
      case Ok(Some(f)) =>
        MemberDeserialize(lib, lib.descs[f.desc].members[f.member], NameHash(name), c, mem, inst,
                          offset + f.offset, hooks)
  }

  /** A "BaseClass" node must carry a `Type`; it is read as the direct
      parent it names, at `offset` plus that parent's offset. A type that is
      not registered or not a direct parent is skipped. */
  function BaseClassNodeRead(lib: Library, k: nat, c: Node, mem: Memory, inst: int, offset: int,
                             hooks: Hooks): (r: Result<Memory>)
    requires k < |lib.descs|
    ensures Attribute(c, ReflSerialize.TypeKey).None? ==> r == Fatal(ReflDeserialize.MissingAttribute)
    ensures (Attribute(c, ReflSerialize.TypeKey).Some? &&
             GetClassDesc(lib, NameHash(Attribute(c, ReflSerialize.TypeKey).value)).None?) ==> r == Ok(mem)
    decreases c, 4
  {
    var d := lib.descs[k];
    match Attribute(c, ReflSerialize.TypeKey)
    case None => Fatal(ReflDeserialize.MissingAttribute)
    case Some(typeName) =>
      match GetClassDesc(lib, NameHash(typeName))
      case None => Ok(mem)
      case Some(pk) =>
        match FindParent(d, lib.descs[pk].hash)
        case None => Ok(mem)
        case Some(i) => DeserializeDesc(lib, pk, c, mem, inst, offset + d.parents[i].offset, hooks)
  }

  /** `ReflMember::Deserialize`: the node's `Type` must be there. When it
      names the table entry of the member's kind, a class member's nested
      "Class" node is read into the embedded object and any other value is
      parsed into the member's storage; another type goes to the conversion
      function if there is one, and is otherwise ignored. */
  function MemberDeserialize(lib: Library, m: LegacyMember, nameHash: Hash, c: Node, mem: Memory, inst: int,
                             offset: int, hooks: Hooks): (r: Result<Memory>)
    ensures Attribute(c, ReflSerialize.TypeKey).None? ==> r == Fatal(ReflDeserialize.MissingAttribute)
    ensures (Attribute(c, ReflSerialize.TypeKey).Some? && m.convFunc.None? &&
             NameHash(Attribute(c, ReflSerialize.TypeKey).value) != TypeHash(m.index)) ==> r == Ok(mem)
    decreases c, 3
  {
    match Attribute(c, ReflSerialize.TypeKey)
    case None => Fatal(ReflDeserialize.MissingAttribute)
    case Some(typeName) =>
      if NameHash(typeName) == TypeHash(m.index) then
        if m.index != Class then
          var address := inst + m.offset + offset;
          match MemberParse(m, m.index, c.value, ReflDeserialize.ValueLength, CellAt(mem, address), hooks.garbage,
                            hooks.codec)
          case Fatal(reason) => Fatal(reason)
          case Ok(cell) => Ok(mem[address := cell])
        else DeserializeClassMember(lib, m, c, mem, inst, offset, hooks)
      else if m.convFunc.Some? then ConvertedRead(lib, m, nameHash, NameHash(typeName), c, mem, inst, hooks)
      else Ok(mem)
  }

  /** A value of another type, for a member with a conversion function: the
      old type must be one the table knows; an old class value is handed
      over member by member from its nested "Class" node, and any other
      value is decoded as the old type first. */
  function ConvertedRead(lib: Library, m: LegacyMember, nameHash: Hash, typeHash: Hash, c: Node, mem: Memory,
                         inst: int, hooks: Hooks): (r: Result<Memory>)
    requires m.convFunc.Some?
    ensures DetermineType(typeHash).Fatal? ==> r == Fatal(ReflDeserialize.UnsupportedType)
    ensures DetermineType(typeHash) == Ok(Class) && |c.children| == 0 ==> r == Ok(mem)
    decreases c, 2
  {
    match DetermineType(typeHash)
    case Fatal(reason) => Fatal(reason)
    case Ok(oldType) =>
      if oldType == Class then
        if |c.children| == 0 then Ok(mem)
        else ConvertClassMember(lib, m, c.children[0], 0, mem, inst, hooks)
      else ConvertDataMember(m, nameHash, oldType, c.value, mem, inst, hooks)
  }

  /** `DeserializeClassMember`: the member's type must be registered and the
      node must hold a "Class" node, which is read at `offset` plus the
      member's offset when its `Type` is the member's type. */
  function DeserializeClassMember(lib: Library, m: LegacyMember, c: Node, mem: Memory, inst: int, offset: int,
                                  hooks: Hooks): (r: Result<Memory>)
    ensures GetClassDesc(lib, m.typeHash).None? ==> r == Fatal(ReflSerialize.UnregisteredType)
    ensures GetClassDesc(lib, m.typeHash).Some? &&
            (|c.children| == 0 || !ReflDeserialize.Named(c.children[0], ReflSerialize.ClassNode)) ==>
              r == Fatal(ReflDeserialize.MalformedClassMember)
    decreases c, 1
  {
    match GetClassDesc(lib, m.typeHash)
    case None => Fatal(ReflSerialize.UnregisteredType)
    case Some(sk) =>
      if |c.children| == 0 || !ReflDeserialize.Named(c.children[0], ReflSerialize.ClassNode) then
        Fatal(ReflDeserialize.MalformedClassMember)
      else
        var e := c.children[0];
        match Attribute(e, ReflSerialize.TypeKey)
        case None => Fatal(ReflDeserialize.MissingAttribute)
        case Some(typeName) =>
          if NameHash(typeName) == m.typeHash then DeserializeDesc(lib, sk, e, mem, inst, offset + m.offset, hooks)
          else Ok(mem)
  }

  /** `ConvertDataMember`: the text decoded by the old type's marshaler
      (enum names among `m`'s enum values) into an uninitialised 16-byte
      scratch buffer, then handed to the conversion function with the name
      read and the old type's hash. */
  function ConvertDataMember(m: LegacyMember, nameHash: Hash, oldType: Kind, text: string, mem: Memory, inst: int,
                             hooks: Hooks): (r: Result<Memory>)
    requires m.convFunc.Some?
    ensures r.Ok? <==> MemberParse(m, oldType, text, ReflDeserialize.ScratchLength, Int(hooks.garbage),
                                   hooks.garbage, hooks.codec).Ok?
    ensures r.Ok? ==>
              var decoded := MemberParse(m, oldType, text, ReflDeserialize.ScratchLength, Int(hooks.garbage),
                                         hooks.garbage, hooks.codec).value;
              r.value == hooks.convert(m.convFunc.value, inst, nameHash, TypeHash(oldType), decoded, mem)
  {
    ReflDeserialize.ScratchFits(oldType);
    if TypeSize(oldType) > ReflDeserialize.ScratchSize then Fatal(ReflDeserialize.ScratchTooSmall)
    else
      match MemberParse(m, oldType, text, ReflDeserialize.ScratchLength, Int(hooks.garbage), hooks.garbage,
                        hooks.codec)
      case Fatal(reason) => Fatal(reason)
      case Ok(decoded) => Ok(hooks.convert(m.convFunc.value, inst, nameHash, TypeHash(oldType), decoded, mem))
  }

  /** `ConvertClassMember` over the children of the old value's "Class"
      node `n` from position `i` on: each "DataMember" node, which must
      carry a `Name` and a `Type` the table knows, is converted under its
      own name; each "BaseClass" node is walked the same way; other nodes
      are skipped. */
  function ConvertClassMember(lib: Library, m: LegacyMember, n: Node, i: nat, mem: Memory, inst: int,
                              hooks: Hooks): (r: Result<Memory>)
    requires m.convFunc.Some? && i <= |n.children|
    ensures (forall j :: i <= j < |n.children| ==> !ReflDeserialize.Named(n.children[j], ReflSerialize.DataMemberNode) &&
                                                   !ReflDeserialize.Named(n.children[j], ReflSerialize.BaseClassNode))
            ==> r == Ok(mem)
    decreases n, |n.children| - i
  {
    if i == |n.children| then Ok(mem)
    else
      var c := n.children[i];
      var here :=
        if ReflDeserialize.Named(c, ReflSerialize.DataMemberNode) then
          match (Attribute(c, ReflSerialize.NameKey), Attribute(c, ReflSerialize.TypeKey))
          case (None, _) => Fatal(ReflDeserialize.MissingAttribute)
          case (_, None) => Fatal(ReflDeserialize.MissingAttribute)
          case (Some(name), Some(typeName)) =>
            match DetermineType(NameHash(typeName))
            case Fatal(reason) => Fatal(reason)
            case Ok(oldType) => ConvertDataMember(m, NameHash(name), oldType, c.value, mem, inst, hooks)
        else if ReflDeserialize.Named(c, ReflSerialize.BaseClassNode) then ConvertClassMember(lib, m, c, 0, mem, inst, hooks)
        else Ok(mem);
      match here
      case Fatal(reason) => Fatal(reason)
      case Ok(next) => ConvertClassMember(lib, m, n, i + 1, next, inst, hooks)
  }

  /** `Deserialize(stream, inst)` of descriptor `k`: from offset 0. */
  function Deserialize(lib: Library, k: nat, n: Node, mem: Memory, inst: int, hooks: Hooks): (r: Result<Memory>)
    requires k < |lib.descs|
    ensures |n.children| == 0 ==> r == Ok(mem)
    ensures lib.descs[k].finalizeFunc.None? && |n.children| > 0 ==> r == DeserializeNodes(lib, k, n, 0, mem, inst, 0, hooks)
  {
    DeserializeDesc(lib, k, n, mem, inst, 0, hooks)
  }

  // ---------------------------------------------------------------------
  // Properties

  /** The walk at child `i`: a failure there is the walk's failure,
      otherwise it goes on from child `i + 1` over what the child left. */
  lemma NodesStep(lib: Library, k: nat, n: Node, i: nat, mem: Memory, inst: int, offset: int, hooks: Hooks,
                  step: Result<Memory>)
    requires k < |lib.descs| && i < |n.children|
    requires step == DeserializeChild(lib, k, n.children[i], mem, inst, offset, hooks)
    ensures step.Fatal? ==> DeserializeNodes(lib, k, n, i, mem, inst, offset, hooks) == step
    ensures step.Ok? ==>
              DeserializeNodes(lib, k, n, i, mem, inst, offset, hooks) ==
              DeserializeNodes(lib, k, n, i + 1, step.value, inst, offset, hooks)
  { }

  /** A value written by `ReflMember::Serialize` for a member that is not a
      class is read back by `ReflMember::Deserialize` into the same place:
      the type written is the table's name of the member's kind, which the
      reader accepts, and the text parses back to the value. */
  lemma MemberRestores(lib: Library, m: LegacyMember, mem: Memory, inst: int, offset: int, fuel: nat,
                       cur: Memory, hooks: Hooks, v: int, address: int)
    requires m.index != Class && Representable(m, v)
    requires m.index == Enum ==> NamesDetermineValues(m, ReflDeserialize.ValueLength)
    requires address == inst + m.offset + offset && CellAt(mem, address) == Int(v)
    ensures SerializeMember(lib, m, mem, inst, offset, hooks.codec, ReflSerialize.Corrected, fuel).Ok?
    ensures MemberDeserialize(lib, m, m.nameHash, SerializeMember(lib, m, mem, inst, offset, hooks.codec, ReflSerialize.Corrected, fuel).value,
                              cur, inst, offset, hooks) == Ok(cur[address := Int(v)])
  {
    MemberRoundTrip(m, v, ReflDeserialize.ValueLength, CellAt(cur, address), hooks.garbage, hooks.codec);
    var text := MemberText(m, Int(v), hooks.codec).value;
    DataMemberWritten(lib, m, mem, inst, offset, hooks.codec, ReflSerialize.Corrected, fuel, address, text);
    var node := MemberTag(m).(value := text);
    assert node.attributes == MemberTag(m).attributes;
    MatchingValueRead(lib, m, m.nameHash, node, cur, inst, offset, hooks, address, Int(v));
  }

  /** The program's own writer, whose enum marshaler looks up the stored
      value's low byte, writes the same tag for a value below 256, so such
      a member is restored as well. */
  lemma MemberRestoresAsWritten(lib: Library, m: LegacyMember, mem: Memory, inst: int, offset: int, fuel: nat,
                                cur: Memory, hooks: Hooks, v: int, address: int)
    requires m.index != Class && Representable(m, v) && 0 <= v < 0x100
    requires m.index == Enum ==> NamesDetermineValues(m, ReflDeserialize.ValueLength)
    requires address == inst + m.offset + offset && CellAt(mem, address) == Int(v)
    ensures SerializeMember(lib, m, mem, inst, offset, hooks.codec, ReflSerialize.AsWritten, fuel).Ok?
    ensures MemberDeserialize(lib, m, m.nameHash,
                              SerializeMember(lib, m, mem, inst, offset, hooks.codec, ReflSerialize.AsWritten, fuel).value,
                              cur, inst, offset, hooks) == Ok(cur[address := Int(v)])
  {
    assert CellAt(mem, inst + m.offset + offset) == Int(v);
    DataMemberRulesAgree(lib, m, mem, inst, offset, hooks.codec, fuel);
    MemberRestores(lib, m, mem, inst, offset, fuel, cur, hooks, v, address);
  }

  /** A node whose `Type` is the table's name of the member's kind, for a
      member that is not a class, stores what its text parses to at the
      member's address and nothing else. */
  lemma MatchingValueRead(lib: Library, m: LegacyMember, nameHash: Hash, c: Node, mem: Memory, inst: int,
                          offset: int, hooks: Hooks, address: int, cell: Cell)
    requires m.index != Class && address == inst + m.offset + offset
    requires Attribute(c, ReflSerialize.TypeKey) == Some(TypeName(m.index))
    requires MemberParse(m, m.index, c.value, ReflDeserialize.ValueLength, CellAt(mem, address), hooks.garbage,
                         hooks.codec) == Ok(cell)
    ensures MemberDeserialize(lib, m, nameHash, c, mem, inst, offset, hooks) == Ok(mem[address := cell])
  {
    TypeHashIsNameHash(m.index);
  }

  /** Reading a node whose `Type` is not the member's kind into a member
      without a conversion function writes nothing; with one, the old value
      goes to the conversion function and the member's storage is not
      touched by the reader itself. */
  lemma MismatchedTypeConverted(lib: Library, m: LegacyMember, nameHash: Hash, c: Node, mem: Memory, inst: int,
                                offset: int, hooks: Hooks, typeName: string)
    requires Attribute(c, ReflSerialize.TypeKey) == Some(typeName) && NameHash(typeName) != TypeHash(m.index)
    ensures m.convFunc.None? ==> MemberDeserialize(lib, m, nameHash, c, mem, inst, offset, hooks) == Ok(mem)
    ensures m.convFunc.Some? ==>
              MemberDeserialize(lib, m, nameHash, c, mem, inst, offset, hooks) ==
              ConvertedRead(lib, m, nameHash, NameHash(typeName), c, mem, inst, hooks)
  {
  }

  /** Children that are neither "DataMember" nor "BaseClass" nodes are
      skipped: the walk over them leaves the storage as it was. */
  lemma {:induction false} OtherNodesSkipped(lib: Library, k: nat, n: Node, i: nat, mem: Memory, inst: int,
                                             offset: int, hooks: Hooks)
    requires k < |lib.descs| && i <= |n.children|
    requires forall j :: i <= j < |n.children| ==>
               !ReflDeserialize.Named(n.children[j], ReflSerialize.DataMemberNode) &&
               !ReflDeserialize.Named(n.children[j], ReflSerialize.BaseClassNode)
    ensures DeserializeNodes(lib, k, n, i, mem, inst, offset, hooks) == Ok(mem)
    decreases |n.children| - i
  {
    if i < |n.children| {
      OtherNodesSkipped(lib, k, n, i + 1, mem, inst, offset, hooks);
    }
  }
}
