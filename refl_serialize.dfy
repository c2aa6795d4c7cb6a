/** `ReflTypeDesc::Serialize` and `SerializeMembers` and
    `ReflMember::Serialize`: the node tree one descriptor writes for an
    object. Each call writes one subtree of the stream, so the model
    returns that subtree: a "Class" node holding one "BaseClass" node per
    parent and then one "DataMember" node per member that is not
    deprecated. */
module ReflSerialize {
  import opened Common
  import opened TextFormat
  import opened PrimitiveTable
  import opened ReflData
  import opened ReflLookup
  import opened ReflMarshal
  import opened Stream

  const ClassNode := "Class"
  const BaseClassNode := "BaseClass"
  const DataMemberNode := "DataMember"
  const TypeKey := "Type"
  const VersionKey := "Version"
  const NameKey := "Name"

  const MissingParentDesc := "Missing parent descriptor"
  const UnregisteredType := "Unregistered type, log error"
  /** Descriptors nested (through parents and class members) more deeply
      than the registry has descriptors: one of them contains itself, and
      the source recurses until the stack overflows. */
  const NestedTooDeep := "descriptor nested in itself"

  /** How members are read for writing. As written (`AsWritten`), an
      embedded class member's descriptor is handed the outer `ReflClass`
      pointer and shifts it by its own offsets, and an enum member's name is
      looked up by the low byte of its stored `int`. `Corrected` reads the
      embedded object at the outer object's start plus the member's offset,
      where `Deserialize` writes it, and looks up the whole stored `int`. */
  datatype WriteRule = AsWritten | Corrected

  /** A node with the given name and its descriptor's `Type` and `Version`
      attributes, as a "Class" or "BaseClass" node starts. */
  function DescNode(name: string, d: Desc): (r: Node)
    ensures r.name == name && r.children == []
    ensures Attribute(r, TypeKey) == Some(d.name)
    ensures Attribute(r, VersionKey) == Some(HexText(d.version))
  {
    var attrs := [Attr(TypeKey, d.name), Attr(VersionKey, HexText(d.version))];
    assert TypeKey[0] != VersionKey[0];
    assert AttributeBelow(attrs, TypeKey, 1) == Some(d.name);
    Node(name, attrs, "", [])
  }

  /** `ReflTypeDesc::Serialize` of descriptor `k` for the object whose start
      is `base`; `inst` is the `ReflClass` pointer the call started from.
      `fuel` bounds how deeply parents and class members may nest. */
  function SerializeAt(reg: Registry, k: nat, mem: Memory, inst: int, base: int, offset: int,
                       codec: Codec, rule: WriteRule, fuel: nat): (r: Result<Node>)
    requires k < |reg.descs|
    ensures r.Ok? ==> r.value.name == ClassNode
    ensures r.Ok? ==> Attribute(r.value, TypeKey) == Some(reg.descs[k].name)
    ensures r.Ok? ==> Attribute(r.value, VersionKey) == Some(HexText(reg.descs[k].version))
    decreases fuel, 4
  {
    match SerializeMembers(reg, k, mem, inst, base, offset, codec, rule, fuel)
    case Fatal(reason) => Fatal(reason)
    case Ok(children) => Ok(DescNode(ClassNode, reg.descs[k]).(children := children))
  }

  /** `SerializeMembers`: the parents' subtrees in list order, then the own
      members in list order. */
  function SerializeMembers(reg: Registry, k: nat, mem: Memory, inst: int, base: int, offset: int,
                            codec: Codec, rule: WriteRule, fuel: nat): (r: Result<seq<Node>>)
    requires k < |reg.descs|
    decreases fuel, 3
  {
    match SerializeParents(reg, k, 0, mem, inst, base, offset, codec, rule, fuel)
    case Fatal(reason) => Fatal(reason)
    case Ok(ps) =>
      match SerializeMemberList(reg, k, 0, mem, inst, base, offset, codec, rule, fuel)
      case Fatal(reason) => Fatal(reason)
      case Ok(ms) => Ok(ps + ms)
  }

  /** The names of the members that are written, in list order. */
  function LiveNames(ms: seq<Member>): (r: seq<string>)
    ensures |r| <= |ms|
  {
    if ms == [] then []
    else if ms[0].deprecated then LiveNames(ms[1..])
    else [ms[0].name] + LiveNames(ms[1..])
  }

  lemma LiveNamesStep(ms: seq<Member>, j: nat)
    requires j < |ms|
    ensures LiveNames(ms[j..]) == (if ms[j].deprecated then [] else [ms[j].name]) + LiveNames(ms[j + 1..])
  {
    assert ms[j..][1..] == ms[j + 1..];
  }

  /** One "BaseClass" node per parent from position `i` on, each holding the
      parent's members read at `offset` plus the parent's `baseOffset`. */
  function SerializeParents(reg: Registry, k: nat, i: nat, mem: Memory, inst: int, base: int, offset: int,
                            codec: Codec, rule: WriteRule, fuel: nat): (r: Result<seq<Node>>)
    requires k < |reg.descs| && i <= |reg.descs[k].parents|
    decreases fuel, 2, |reg.descs[k].parents| - i
  {
    if i == |reg.descs[k].parents| then Ok([])
    else if fuel == 0 then Fatal(NestedTooDeep)
    else
      var p := reg.descs[k].parents[i];
      match GetClassDesc(reg, p.parentHash)
      case None => Fatal(MissingParentDesc)
      case Some(pk) =>
        match SerializeMembers(reg, pk, mem, inst, base, offset + p.baseOffset, codec, rule, fuel - 1)
        case Fatal(reason) => Fatal(reason)
        case Ok(children) =>
          match SerializeParents(reg, k, i + 1, mem, inst, base, offset, codec, rule, fuel)
          case Fatal(reason) => Fatal(reason)
          case Ok(rest) => Ok([DescNode(BaseClassNode, reg.descs[pk]).(children := children)] + rest)
  }

  /** The own members from position `j` on; deprecated ones write nothing. */
  function SerializeMemberList(reg: Registry, k: nat, j: nat, mem: Memory, inst: int, base: int, offset: int,
                               codec: Codec, rule: WriteRule, fuel: nat): (r: Result<seq<Node>>)
    requires k < |reg.descs| && j <= |reg.descs[k].members|
    decreases fuel, 2, |reg.descs[k].members| - j
  {
    var ms := reg.descs[k].members;
    if j == |ms| then Ok([])
    else
      match SerializeMember(reg, ms[j], mem, inst, base, offset, codec, rule, fuel)
      case Fatal(reason) => Fatal(reason)
      case Ok(node) =>
        match SerializeMemberList(reg, k, j + 1, mem, inst, base, offset, codec, rule, fuel)
        case Fatal(reason) => Fatal(reason)
        case Ok(rest) => Ok(if node.Some? then [node.value] + rest else rest)
  }

  /** `ReflMember::Serialize`: nothing for a deprecated member; otherwise a
      "DataMember" node naming the member and its type (the enum's own name
      for an enum, "class" for a class) holding either the value's text or
      the embedded object's "Class" node. */
  function SerializeMember(reg: Registry, m: Member, mem: Memory, inst: int, base: int, offset: int,
                           codec: Codec, rule: WriteRule, fuel: nat): (r: Result<Option<Node>>)
    ensures r.Ok? ==> (r.value.None? <==> m.deprecated)
    ensures r.Ok? && r.value.Some? ==>
              r.value.value.name == DataMemberNode && Attribute(r.value.value, NameKey) == Some(m.name)
    decreases fuel, 1
  {
    if m.deprecated then Ok(None)
    else
      var typeDesc := GetClassDesc(reg, m.typeHash);
      match MemberTypeName(reg, m)
      case Fatal(reason) => Fatal(reason)
      case Ok(typeName) =>
        var attrs := [Attr(NameKey, m.name), Attr(TypeKey, typeName)];
        assert NameKey[0] != TypeKey[0];
        assert AttributeBelow(attrs, NameKey, 1) == Some(m.name);
        var tag := Node(DataMemberNode, attrs, "", []);
        if m.index == Class then
          match typeDesc
          case None => Fatal(UnregisteredType)
          case Some(sk) =>
            if fuel == 0 then Fatal(NestedTooDeep)
            else
              var start := if rule == AsWritten then CastToBase(reg.descs[sk], inst) else base;
              match SerializeAt(reg, sk, mem, inst, start, offset + m.offset, codec, rule, fuel - 1)
              case Fatal(reason) => Fatal(reason)
              case Ok(sub) => Ok(Some(tag.(children := [sub])))
        else
          match DataText(reg, m, CellAt(mem, base + m.offset + offset), codec, rule)
          case Fatal(reason) => Fatal(reason)
          case Ok(text) => Ok(Some(tag.(value := text)))
  }

  /** The text a member that is not a class is written as: `toString` of
      its kind, with the enum marshaler of the rule. */
  function DataText(reg: Registry, m: Member, c: Cell, codec: Codec, rule: WriteRule): (r: Result<string>)
    ensures m.index != Enum || rule == Corrected ==> r == MemberText(reg, m.index, m.typeHash, c, codec)
    ensures m.index == Enum && rule == AsWritten ==> r == EnumTextAsWritten(reg, m.typeHash, c)
  {
    if m.index == Enum && rule == AsWritten then EnumTextAsWritten(reg, m.typeHash, c)
    else MemberText(reg, m.index, m.typeHash, c, codec)
  }

  /** Below 256 the stored value's low byte is the value itself, so both
      rules write the same text. */
  lemma DataTextAgreesOnLowValues(reg: Registry, m: Member, c: Cell, codec: Codec)
    requires 0 <= IntOf(c) < 0x100
    ensures DataText(reg, m, c, codec, AsWritten) == DataText(reg, m, c, codec, Corrected)
  {
    if m.index == Enum {
      EnumTextAgreesOnLowValues(reg, m.typeHash, c);
    }
  }

  /** The `Type` a member is written with: the table's type name, or the
      name of the enum's descriptor for an enum member. */
  function MemberTypeName(reg: Registry, m: Member): Result<string>
  {
    var typeDesc := GetClassDesc(reg, m.typeHash);
    GetTypeName(m.index, if typeDesc.Some? then Some(reg.descs[typeDesc.value].name) else None)
  }

  /** `Serialize(stream, inst)` of descriptor `k` as written: an embedded
      class member's object is located from `inst` shifted by the embedded
      descriptor's offsets, and an enum member by its stored low byte. */
  function SerializeAsWritten(reg: Registry, k: nat, mem: Memory, inst: int, codec: Codec): (r: Result<Node>)
    requires k < |reg.descs|
    ensures r.Ok? <==>
              SerializeMembers(reg, k, mem, inst, CastToBase(reg.descs[k], inst), 0, codec, AsWritten, Depth(reg)).Ok?
    ensures r.Ok? ==> r.value.name == ClassNode && Attribute(r.value, TypeKey) == Some(reg.descs[k].name) &&
                      Attribute(r.value, VersionKey) == Some(HexText(reg.descs[k].version))
  {
    SerializeAt(reg, k, mem, inst, CastToBase(reg.descs[k], inst), 0, codec, AsWritten, Depth(reg))
  }

  /** `Serialize(stream, inst)` of descriptor `k`, reading an embedded class
      member's object where `Deserialize` writes it (at the outer object's
      start plus the member's offset) and an enum member's whole `int`. */
  function Serialize(reg: Registry, k: nat, mem: Memory, inst: int, codec: Codec): (r: Result<Node>)
    requires k < |reg.descs|
    ensures r.Ok? <==>
              SerializeMembers(reg, k, mem, inst, CastToBase(reg.descs[k], inst), 0, codec, Corrected, Depth(reg)).Ok?
    ensures r.Ok? ==> r.value.name == ClassNode && Attribute(r.value, TypeKey) == Some(reg.descs[k].name) &&
                      Attribute(r.value, VersionKey) == Some(HexText(reg.descs[k].version))
  {
    SerializeAt(reg, k, mem, inst, CastToBase(reg.descs[k], inst), 0, codec, Corrected, Depth(reg))
  }

  /** A "BaseClass" node written for parent `p`: it names the parent's
      descriptor. */
  predicate ParentNode(reg: Registry, p: Parent, n: Node)
  {
    n.name == BaseClassNode &&
    GetClassDesc(reg, p.parentHash).Some? &&
    Attribute(n, TypeKey) == Some(reg.descs[GetClassDesc(reg, p.parentHash).value].name)
  }

  /** A "DataMember" node written for the member called `name`. */
  predicate MemberNode(name: string, n: Node)
  {
    n.name == DataMemberNode && Attribute(n, NameKey) == Some(name)
  }

  /** One step of `SerializeParents`: the node for parent `i`, then the
      nodes for the parents after it. */
  lemma ParentNodeStep(reg: Registry, k: nat, i: nat, mem: Memory, inst: int, base: int,
                       offset: int, codec: Codec, rule: WriteRule, fuel: nat, ns: seq<Node>)
      returns (rest: seq<Node>)
    requires k < |reg.descs| && i < |reg.descs[k].parents|
    requires SerializeParents(reg, k, i, mem, inst, base, offset, codec, rule, fuel) == Ok(ns)
    ensures SerializeParents(reg, k, i + 1, mem, inst, base, offset, codec, rule, fuel) == Ok(rest)
    ensures |ns| > 0 && ParentNode(reg, reg.descs[k].parents[i], ns[0]) && ns[1..] == rest
  {
    var ps := reg.descs[k].parents;
    var pk := GetClassDesc(reg, ps[i].parentHash).value;
    var children := SerializeMembers(reg, pk, mem, inst, base, offset + ps[i].baseOffset, codec, rule, fuel - 1).value;
    rest := SerializeParents(reg, k, i + 1, mem, inst, base, offset, codec, rule, fuel).value;
    var head := DescNode(BaseClassNode, reg.descs[pk]).(children := children);
    assert ns == [head] + rest;
    assert ([head] + rest)[1..] == rest;
  }

  /** The "BaseClass" nodes from position `i` on: one per parent, in list
      order, each naming the parent's descriptor. */
  lemma {:induction false} ParentNodes(reg: Registry, k: nat, i: nat, mem: Memory, inst: int, base: int,
                                       offset: int, codec: Codec, rule: WriteRule, fuel: nat, ns: seq<Node>)
    requires k < |reg.descs| && i <= |reg.descs[k].parents|
    requires SerializeParents(reg, k, i, mem, inst, base, offset, codec, rule, fuel) == Ok(ns)
    ensures var ps := reg.descs[k].parents[i..];
            |ns| == |ps| && forall t :: 0 <= t < |ns| ==> ParentNode(reg, ps[t], ns[t])
    decreases |reg.descs[k].parents| - i
  {
    if i < |reg.descs[k].parents| {
      var rest := ParentNodeStep(reg, k, i, mem, inst, base, offset, codec, rule, fuel, ns);
      ParentNodes(reg, k, i + 1, mem, inst, base, offset, codec, rule, fuel, rest);
      var ps := reg.descs[k].parents[i..];
      assert ps[1..] == reg.descs[k].parents[i + 1..];
      forall t | 1 <= t < |ns|
        ensures ParentNode(reg, ps[t], ns[t])
      {
        assert ns[t] == rest[t - 1] && ps[t] == ps[1..][t - 1];
      }
    }
  }

  /** `SerializeParents` writes one node per parent from position `i` on. */
  lemma {:induction false} ParentCount(reg: Registry, k: nat, i: nat, mem: Memory, inst: int, base: int,
                                       offset: int, codec: Codec, rule: WriteRule, fuel: nat, ns: seq<Node>)
    requires k < |reg.descs| && i <= |reg.descs[k].parents|
    requires SerializeParents(reg, k, i, mem, inst, base, offset, codec, rule, fuel) == Ok(ns)
    ensures |ns| == |reg.descs[k].parents| - i
    decreases |reg.descs[k].parents| - i
  {
    if i < |reg.descs[k].parents| {
      var rest := ParentNodeStep(reg, k, i, mem, inst, base, offset, codec, rule, fuel, ns);
      ParentCount(reg, k, i + 1, mem, inst, base, offset, codec, rule, fuel, rest);
    }
  }

  /** One step of `SerializeMemberList`: the node for member `j`, if it is
      not deprecated, then the nodes for the members after it. */
  lemma MemberListStep(reg: Registry, k: nat, j: nat, mem: Memory, inst: int, base: int,
                       offset: int, codec: Codec, rule: WriteRule, fuel: nat, ns: seq<Node>)
      returns (rest: seq<Node>)
    requires k < |reg.descs| && j < |reg.descs[k].members|
    requires SerializeMemberList(reg, k, j, mem, inst, base, offset, codec, rule, fuel) == Ok(ns)
    ensures SerializeMemberList(reg, k, j + 1, mem, inst, base, offset, codec, rule, fuel) == Ok(rest)
    ensures var m := reg.descs[k].members[j];
            if m.deprecated then ns == rest
            else |ns| > 0 && MemberNode(m.name, ns[0]) && ns[1..] == rest
  {
    var m := reg.descs[k].members[j];
    var node := SerializeMember(reg, m, mem, inst, base, offset, codec, rule, fuel).value;
    rest := SerializeMemberList(reg, k, j + 1, mem, inst, base, offset, codec, rule, fuel).value;
    if !m.deprecated {
      assert ([node.value] + rest)[1..] == rest;
    }
  }

  /** The "DataMember" nodes from position `j` on: one per member that is
      not deprecated, in list order, each naming its member. */
  lemma {:induction false} MemberNodes(reg: Registry, k: nat, j: nat, mem: Memory, inst: int, base: int,
                                       offset: int, codec: Codec, rule: WriteRule, fuel: nat, ns: seq<Node>)
    requires k < |reg.descs| && j <= |reg.descs[k].members|
    requires SerializeMemberList(reg, k, j, mem, inst, base, offset, codec, rule, fuel) == Ok(ns)
    ensures var names := LiveNames(reg.descs[k].members[j..]);
            |ns| == |names| && forall t :: 0 <= t < |ns| ==> MemberNode(names[t], ns[t])
    decreases |reg.descs[k].members| - j
  {
    var ms := reg.descs[k].members;
    if j < |ms| {
      LiveNamesStep(ms, j);
      var rest := MemberListStep(reg, k, j, mem, inst, base, offset, codec, rule, fuel, ns);
      MemberNodes(reg, k, j + 1, mem, inst, base, offset, codec, rule, fuel, rest);
      var names := LiveNames(ms[j..]);
      if !ms[j].deprecated {
        forall t | 1 <= t < |ns|
          ensures MemberNode(names[t], ns[t])
        {
          assert ns[t] == rest[t - 1] && names[t] == names[1..][t - 1];
        }
      }
    } else {
      assert ms[j..] == [];
    }
  }

  /** One step of `SerializeMembers`: the parents' nodes, then the own
      members' nodes. */
  lemma MembersStep(reg: Registry, k: nat, mem: Memory, inst: int, base: int, offset: int,
                    codec: Codec, rule: WriteRule, fuel: nat, cs: seq<Node>)
      returns (ps: seq<Node>, ms: seq<Node>)
    requires k < |reg.descs|
    requires SerializeMembers(reg, k, mem, inst, base, offset, codec, rule, fuel) == Ok(cs)
    ensures SerializeParents(reg, k, 0, mem, inst, base, offset, codec, rule, fuel) == Ok(ps)
    ensures SerializeMemberList(reg, k, 0, mem, inst, base, offset, codec, rule, fuel) == Ok(ms)
    ensures cs == ps + ms
  {
    ps := SerializeParents(reg, k, 0, mem, inst, base, offset, codec, rule, fuel).value;
    ms := SerializeMemberList(reg, k, 0, mem, inst, base, offset, codec, rule, fuel).value;
  }

  /** Member nodes keep their order after the parents' nodes. */
  lemma MemberNodesAfter(names: seq<string>, ps: seq<Node>, ms: seq<Node>, cs: seq<Node>, np: nat)
    requires cs == ps + ms && |ps| == np
    requires |ms| == |names| && forall t :: 0 <= t < |ms| ==> MemberNode(names[t], ms[t])
    ensures |cs| == np + |names|
    ensures forall t :: 0 <= t < |names| ==> MemberNode(names[t], cs[np + t])
  {
    forall t | 0 <= t < |names|
      ensures cs[np + t] == ms[t]
    {
    }
  }

  /** The first children `SerializeMembers` writes: one "BaseClass" node
      per parent, in list order, naming the parent. */
  lemma ParentChildren(reg: Registry, k: nat, mem: Memory, inst: int, base: int, offset: int,
                       codec: Codec, rule: WriteRule, fuel: nat, cs: seq<Node>)
    requires k < |reg.descs|
    requires SerializeMembers(reg, k, mem, inst, base, offset, codec, rule, fuel) == Ok(cs)
    ensures var ps := reg.descs[k].parents;
            |ps| <= |cs| && forall t :: 0 <= t < |ps| ==> ParentNode(reg, ps[t], cs[t])
  {
    var ps, ms := MembersStep(reg, k, mem, inst, base, offset, codec, rule, fuel, cs);
    ParentNodes(reg, k, 0, mem, inst, base, offset, codec, rule, fuel, ps);
    assert reg.descs[k].parents[0..] == reg.descs[k].parents;
  }

  /** The remaining children `SerializeMembers` writes: one "DataMember"
      node per member that is not deprecated, in list order, naming the
      member. */
  lemma MemberChildren(reg: Registry, k: nat, mem: Memory, inst: int, base: int, offset: int,
                       codec: Codec, rule: WriteRule, fuel: nat, cs: seq<Node>)
    requires k < |reg.descs|
    requires SerializeMembers(reg, k, mem, inst, base, offset, codec, rule, fuel) == Ok(cs)
    ensures var d := reg.descs[k];
            var names := LiveNames(d.members);
            |cs| == |d.parents| + |names| &&
            forall t :: 0 <= t < |names| ==> MemberNode(names[t], cs[|d.parents| + t])
  {
    var ps, ms := MembersStep(reg, k, mem, inst, base, offset, codec, rule, fuel, cs);
    ParentCount(reg, k, 0, mem, inst, base, offset, codec, rule, fuel, ps);
    MemberNodes(reg, k, 0, mem, inst, base, offset, codec, rule, fuel, ms);
    var d := reg.descs[k];
    assert d.members[0..] == d.members;
    MemberNodesAfter(LiveNames(d.members), ps, ms, cs, |d.parents|);
  }

  /** What `Serialize` writes for an object: a "Class" node with the
      descriptor's name and its version as `0x%x`, which `%x` reads back,
      holding the parents' nodes and then the members' nodes. */
  lemma SerializedLayout(reg: Registry, k: nat, mem: Memory, inst: int, codec: Codec)
    requires k < |reg.descs| && Serialize(reg, k, mem, inst, codec).Ok?
    ensures var n := Serialize(reg, k, mem, inst, codec).value;
            var d := reg.descs[k];
            n.name == ClassNode && Attribute(n, TypeKey) == Some(d.name) &&
            Attribute(n, VersionKey).Some? && ParseHex(Attribute(n, VersionKey).value) == Some(d.version)
    ensures var n := Serialize(reg, k, mem, inst, codec).value;
            var d := reg.descs[k];
            var names := LiveNames(d.members);
            |n.children| == |d.parents| + |names| &&
            (forall t :: 0 <= t < |d.parents| ==> ParentNode(reg, d.parents[t], n.children[t])) &&
            (forall t :: 0 <= t < |names| ==> MemberNode(names[t], n.children[|d.parents| + t]))
  {
    var d := reg.descs[k];
    var base := CastToBase(d, inst);
    HexRoundTrip(d.version);
    var cs := SerializeMembers(reg, k, mem, inst, base, 0, codec, Corrected, Depth(reg)).value;
    assert Serialize(reg, k, mem, inst, codec).value.children == cs;
    ParentChildren(reg, k, mem, inst, base, 0, codec, Corrected, Depth(reg), cs);
    MemberChildren(reg, k, mem, inst, base, 0, codec, Corrected, Depth(reg), cs);
  }

  /** A member that is not a class is written alike by the program and by
      the corrected writer when its stored value is below 256; above, an
      enum member's text can differ (`ReflMarshal.EnumLowByteLosesValue`). */
  lemma DataMemberRulesAgree(reg: Registry, m: Member, mem: Memory, inst: int, base: int, offset: int,
                             codec: Codec, fuel: nat)
    requires m.index != Class && 0 <= IntOf(CellAt(mem, base + m.offset + offset)) < 0x100
    ensures SerializeMember(reg, m, mem, inst, base, offset, codec, AsWritten, fuel)
            == SerializeMember(reg, m, mem, inst, base, offset, codec, Corrected, fuel)
  {
    if !m.deprecated && MemberTypeName(reg, m).Ok? {
      DataTextAgreesOnLowValues(reg, m, CellAt(mem, base + m.offset + offset), codec);
    }
  }

  /** An enum member holding 256, of an enum whose values are 0 (`Small`)
      and 256 (`Large`), is written "Small" by the program and "Large" by
      the corrected writer. */
  lemma DataTextLowByteLosesValue(m: Member, codec: Codec)
    requires m.index == Enum && m.typeHash == NameHash(WideEnumName)
    ensures DataText(WideEnum(), m, Int(256), codec, AsWritten) == Ok("Small")
    ensures DataText(WideEnum(), m, Int(256), codec, Corrected) == Ok("Large")
  {
    EnumLowByteLosesValue();
  }

  /** A live member that is not a class is written as a "DataMember" node
      holding its name, its type name and its value's text. */
  lemma DataMemberWritten(reg: Registry, m: Member, mem: Memory, inst: int, base: int, offset: int,
                          codec: Codec, rule: WriteRule, fuel: nat, typeName: string, address: int,
                          text: string)
    requires !m.deprecated && m.index != Class && address == base + m.offset + offset
    requires MemberTypeName(reg, m) == Ok(typeName)
    requires DataText(reg, m, CellAt(mem, address), codec, rule) == Ok(text)
    ensures SerializeMember(reg, m, mem, inst, base, offset, codec, rule, fuel)
            == Ok(Some(Node(DataMemberNode, [Attr(NameKey, m.name), Attr(TypeKey, typeName)], text, [])))
  {
  }
}
