/** `ReflClassDesc::Serialize`, `SerializeMembers` and `ReflMember::Serialize`
    of the older engine: a "Class" node carrying only a `Type`, one
    "BaseClass" node per parent and one "DataMember" node per member. Every
    member is written at `inst` plus the offsets accumulated on the way
    down, an embedded class member's object included. */
module LegacySerialize {
  import opened Common
  import opened PrimitiveTable
  import opened ReflData
  import opened LegacyData
  import opened LegacyLookup
  import opened LegacyMarshal
  import opened Stream
  import ReflSerialize

  /** A "Class" or "BaseClass" node naming a descriptor. */
  function TypeNode(name: string, typeName: string): (r: Node)
    ensures r.name == name && r.value == "" && r.children == []
    ensures Attribute(r, ReflSerialize.TypeKey) == Some(typeName)
    ensures Attribute(r, ReflSerialize.VersionKey).None?
  {
    var attrs := [Attr(ReflSerialize.TypeKey, typeName)];
    assert attrs[0].key != ReflSerialize.VersionKey by {
      assert ReflSerialize.TypeKey[0] != ReflSerialize.VersionKey[0];
    }
    assert AttributeBelow(attrs, ReflSerialize.VersionKey, 1) == AttributeBelow(attrs, ReflSerialize.VersionKey, 0);
    Node(name, attrs, "", [])
  }

  /** The "DataMember" node a member starts with: its name and the table's
      name of its kind ("class" and "enum" included). */
  function MemberTag(m: LegacyMember): (r: Node)
    ensures MemberNode(m, r) && r.value == "" && r.children == []
  {
    var attrs := [Attr(ReflSerialize.NameKey, m.name), Attr(ReflSerialize.TypeKey, TypeName(m.index))];
    assert ReflSerialize.NameKey[0] != ReflSerialize.TypeKey[0];
    assert AttributeBelow(attrs, ReflSerialize.NameKey, 1) == Some(m.name);
    Node(ReflSerialize.DataMemberNode, attrs, "", [])
  }

  /** A "DataMember" node written for member `m`. */
  predicate MemberNode(m: LegacyMember, n: Node)
  {
    n.name == ReflSerialize.DataMemberNode &&
    Attribute(n, ReflSerialize.NameKey) == Some(m.name) &&
    Attribute(n, ReflSerialize.TypeKey) == Some(TypeName(m.index))
  }

  /** A "BaseClass" node written for parent `p`: it names the parent's
      descriptor. */
  predicate ParentNode(lib: Library, p: LegacyParent, n: Node)
  {
    n.name == ReflSerialize.BaseClassNode &&
    GetClassDesc(lib, p.parentHash).Some? &&
    Attribute(n, ReflSerialize.TypeKey) == Some(lib.descs[GetClassDesc(lib, p.parentHash).value].name)
  }

  /** `ReflClassDesc::Serialize(stream, inst, offset)` of descriptor `k`;
      `fuel` bounds how deeply parents and class members may nest. */
  function SerializeAt(lib: Library, k: nat, mem: Memory, inst: int, offset: int, codec: Codec,
                       rule: ReflSerialize.WriteRule, fuel: nat): (r: Result<Node>)
    requires k < |lib.descs|
    ensures r.Ok? ==> r.value.name == ReflSerialize.ClassNode
    ensures r.Ok? ==> Attribute(r.value, ReflSerialize.TypeKey) == Some(lib.descs[k].name)
    ensures r.Ok? ==> Attribute(r.value, ReflSerialize.VersionKey).None?
    decreases fuel, 4
  {
    match SerializeMembers(lib, k, mem, inst, offset, codec, rule, fuel)
    case Fatal(reason) => Fatal(reason)
    case Ok(children) => Ok(TypeNode(ReflSerialize.ClassNode, lib.descs[k].name).(children := children))
  }

  /** `SerializeMembers`: the parents' subtrees in list order, then the own
      members in list order. */
  function SerializeMembers(lib: Library, k: nat, mem: Memory, inst: int, offset: int, codec: Codec,
                            rule: ReflSerialize.WriteRule, fuel: nat): (r: Result<seq<Node>>)
    requires k < |lib.descs|
    decreases fuel, 3
  {
    match SerializeParents(lib, k, 0, mem, inst, offset, codec, rule, fuel)
    case Fatal(reason) => Fatal(reason)
    case Ok(ps) =>
      match SerializeMemberList(lib, k, 0, mem, inst, offset, codec, rule, fuel)
      case Fatal(reason) => Fatal(reason)
      case Ok(ms) => Ok(ps + ms)
  }

  /** One "BaseClass" node per parent from position `i` on, each holding the
      parent's members read at `offset` plus the parent's offset; a parent
      that is not registered asserts. */
  function SerializeParents(lib: Library, k: nat, i: nat, mem: Memory, inst: int, offset: int, codec: Codec,
                            rule: ReflSerialize.WriteRule, fuel: nat): (r: Result<seq<Node>>)
    requires k < |lib.descs| && i <= |lib.descs[k].parents|
    decreases fuel, 2, |lib.descs[k].parents| - i
  {
    if i == |lib.descs[k].parents| then Ok([])
    else if fuel == 0 then Fatal(ReflSerialize.NestedTooDeep)
    else
      var p := lib.descs[k].parents[i];
      match GetClassDesc(lib, p.parentHash)
      case None => Fatal(ReflSerialize.MissingParentDesc)
      case Some(pk) =>
        match SerializeMembers(lib, pk, mem, inst, offset + p.offset, codec, rule, fuel - 1)
        case Fatal(reason) => Fatal(reason)
        case Ok(children) =>
          match SerializeParents(lib, k, i + 1, mem, inst, offset, codec, rule, fuel)
          case Fatal(reason) => Fatal(reason)
          case Ok(rest) => Ok([TypeNode(ReflSerialize.BaseClassNode, lib.descs[pk].name).(children := children)] + rest)
  }

  /** The own members from position `j` on. */
  function SerializeMemberList(lib: Library, k: nat, j: nat, mem: Memory, inst: int, offset: int, codec: Codec,
                               rule: ReflSerialize.WriteRule, fuel: nat): (r: Result<seq<Node>>)
    requires k < |lib.descs| && j <= |lib.descs[k].members|
    decreases fuel, 2, |lib.descs[k].members| - j
  {
    var ms := lib.descs[k].members;
    if j == |ms| then Ok([])
    else
      match SerializeMember(lib, ms[j], mem, inst, offset, codec, rule, fuel)
      case Fatal(reason) => Fatal(reason)
      case Ok(node) =>
        match SerializeMemberList(lib, k, j + 1, mem, inst, offset, codec, rule, fuel)
        case Fatal(reason) => Fatal(reason)
        case Ok(rest) => Ok([node] + rest)
  }

  /** `ReflMember::Serialize`: the member's tag holding either the embedded
      object's "Class" node, written at `offset` plus the member's offset,
      or the text of the value stored at `inst` plus both offsets. */
  function SerializeMember(lib: Library, m: LegacyMember, mem: Memory, inst: int, offset: int, codec: Codec,
                           rule: ReflSerialize.WriteRule, fuel: nat): (r: Result<Node>)
    ensures r.Ok? ==> MemberNode(m, r.value)
    ensures m.index == Class && GetClassDesc(lib, m.typeHash).None? ==> r == Fatal(ReflSerialize.UnregisteredType)
    decreases fuel, 1
  {
    if m.index == Class then
      match GetClassDesc(lib, m.typeHash)
      case None => Fatal(ReflSerialize.UnregisteredType)
      case Some(sk) =>
        if fuel == 0 then Fatal(ReflSerialize.NestedTooDeep)
        else
          match SerializeAt(lib, sk, mem, inst, offset + m.offset, codec, rule, fuel - 1)
          case Fatal(reason) => Fatal(reason)
          case Ok(sub) => Ok(MemberTag(m).(children := [sub]))
    else
      match DataText(m, CellAt(mem, inst + m.offset + offset), codec, rule)
      case Fatal(reason) => Fatal(reason)
      case Ok(text) => Ok(MemberTag(m).(value := text))
  }

  /** The text a member that is not a class is written as: `toString` of
      its kind, with the enum marshaler of the rule (the low byte of the
      stored `int` as written, the whole `int` corrected). */
  function DataText(m: LegacyMember, c: Cell, codec: Codec, rule: ReflSerialize.WriteRule): (r: Result<string>)
    ensures m.index != Enum || rule == ReflSerialize.Corrected ==> r == MemberText(m, c, codec)
    ensures m.index == Enum && rule == ReflSerialize.AsWritten ==> r == EnumTextAsWritten(m, c)
  {
    if m.index == Enum && rule == ReflSerialize.AsWritten then EnumTextAsWritten(m, c)
    else MemberText(m, c, codec)
  }

  /** Below 256 the stored value's low byte is the value itself, so both
      rules write the same text. */
  lemma DataTextAgreesOnLowValues(m: LegacyMember, c: Cell, codec: Codec)
    requires 0 <= IntOf(c) < 0x100
    ensures DataText(m, c, codec, ReflSerialize.AsWritten) == DataText(m, c, codec, ReflSerialize.Corrected)
  {
    if m.index == Enum {
      EnumTextAgreesOnLowValues(m, c);
    }
  }

  /** An enum member holding 256, with the values 0 (`Small`) and 256
      (`Large`), is written "Small" by the program and "Large" by the
      corrected writer. */
  lemma DataTextLowByteLosesValue(m: LegacyMember, codec: Codec)
    requires m == WideMember().(index := Enum)
    ensures DataText(m, Int(256), codec, ReflSerialize.AsWritten) == Ok("Small")
    ensures DataText(m, Int(256), codec, ReflSerialize.Corrected) == Ok("Large")
  {
    EnumLowByteLosesValue();
    assert m.enumValues == WideMember().enumValues;
    assert EnumByValue(m, Wrap(UInt8, 256)) == EnumByValue(WideMember(), Wrap(UInt8, 256));
    assert EnumByValue(m, ReflMarshal.StoredEnumValue(Int(256))) ==
           EnumByValue(WideMember(), ReflMarshal.StoredEnumValue(Int(256)));
  }

  /** `Serialize(stream, inst)` of descriptor `k` as written: from offset 0,
      an enum member written by its stored low byte. */
  function SerializeAsWritten(lib: Library, k: nat, mem: Memory, inst: int, codec: Codec): (r: Result<Node>)
    requires k < |lib.descs|
    ensures r.Ok? <==> SerializeMembers(lib, k, mem, inst, 0, codec, ReflSerialize.AsWritten, Depth(lib)).Ok?
    ensures r.Ok? ==> r.value.name == ReflSerialize.ClassNode &&
                      Attribute(r.value, ReflSerialize.TypeKey) == Some(lib.descs[k].name) &&
                      Attribute(r.value, ReflSerialize.VersionKey).None?
  {
    SerializeAt(lib, k, mem, inst, 0, codec, ReflSerialize.AsWritten, Depth(lib))
  }

  /** `Serialize(stream, inst)` of descriptor `k` with the corrected enum
      writer: from offset 0. */
  function Serialize(lib: Library, k: nat, mem: Memory, inst: int, codec: Codec): (r: Result<Node>)
    requires k < |lib.descs|
    ensures r.Ok? <==> SerializeMembers(lib, k, mem, inst, 0, codec, ReflSerialize.Corrected, Depth(lib)).Ok?
    ensures r.Ok? ==> r.value.name == ReflSerialize.ClassNode &&
                      Attribute(r.value, ReflSerialize.TypeKey) == Some(lib.descs[k].name) &&
                      Attribute(r.value, ReflSerialize.VersionKey).None?
  {
    SerializeAt(lib, k, mem, inst, 0, codec, ReflSerialize.Corrected, Depth(lib))
  }

  // ---------------------------------------------------------------------
  // The shape of what is written

  /** One step of `SerializeParents`: the node for parent `i`, then the
      nodes for the parents after it. */
  lemma ParentNodeStep(lib: Library, k: nat, i: nat, mem: Memory, inst: int, offset: int, codec: Codec,
                       rule: ReflSerialize.WriteRule, fuel: nat, ns: seq<Node>) returns (rest: seq<Node>)
    requires k < |lib.descs| && i < |lib.descs[k].parents|
    requires SerializeParents(lib, k, i, mem, inst, offset, codec, rule, fuel) == Ok(ns)
    ensures SerializeParents(lib, k, i + 1, mem, inst, offset, codec, rule, fuel) == Ok(rest)
    ensures |ns| > 0 && ParentNode(lib, lib.descs[k].parents[i], ns[0]) && ns[1..] == rest
  {
    var ps := lib.descs[k].parents;
    var pk := GetClassDesc(lib, ps[i].parentHash).value;
    var children := SerializeMembers(lib, pk, mem, inst, offset + ps[i].offset, codec, rule, fuel - 1).value;
    rest := SerializeParents(lib, k, i + 1, mem, inst, offset, codec, rule, fuel).value;
    var head := TypeNode(ReflSerialize.BaseClassNode, lib.descs[pk].name).(children := children);
    assert ns == [head] + rest;
    assert ([head] + rest)[1..] == rest;
  }

  /** The "BaseClass" nodes from position `i` on: one per parent, in list
      order, each naming the parent's descriptor. */
  lemma {:induction false} ParentNodes(lib: Library, k: nat, i: nat, mem: Memory, inst: int, offset: int,
                                       codec: Codec, rule: ReflSerialize.WriteRule, fuel: nat, ns: seq<Node>)
    requires k < |lib.descs| && i <= |lib.descs[k].parents|
    requires SerializeParents(lib, k, i, mem, inst, offset, codec, rule, fuel) == Ok(ns)
    ensures var ps := lib.descs[k].parents[i..];
            |ns| == |ps| && forall t :: 0 <= t < |ns| ==> ParentNode(lib, ps[t], ns[t])
    decreases |lib.descs[k].parents| - i
  {
    if i < |lib.descs[k].parents| {
      var rest := ParentNodeStep(lib, k, i, mem, inst, offset, codec, rule, fuel, ns);
      ParentNodes(lib, k, i + 1, mem, inst, offset, codec, rule, fuel, rest);
      var ps := lib.descs[k].parents[i..];
      assert ps[1..] == lib.descs[k].parents[i + 1..];
      forall t | 1 <= t < |ns|
        ensures ParentNode(lib, ps[t], ns[t])
      {
        assert ns[t] == rest[t - 1] && ps[t] == ps[1..][t - 1];
      }
    }
  }

  /** `SerializeParents` writes one node per parent from position `i` on. */
  lemma {:induction false} ParentCount(lib: Library, k: nat, i: nat, mem: Memory, inst: int, offset: int,
                                       codec: Codec, rule: ReflSerialize.WriteRule, fuel: nat, ns: seq<Node>)
    requires k < |lib.descs| && i <= |lib.descs[k].parents|
    requires SerializeParents(lib, k, i, mem, inst, offset, codec, rule, fuel) == Ok(ns)
    ensures |ns| == |lib.descs[k].parents| - i
    decreases |lib.descs[k].parents| - i
  {
    if i < |lib.descs[k].parents| {
      var rest := ParentNodeStep(lib, k, i, mem, inst, offset, codec, rule, fuel, ns);
      ParentCount(lib, k, i + 1, mem, inst, offset, codec, rule, fuel, rest);
    }
  }

  /** One step of `SerializeMemberList`: the node for member `j`, then the
      nodes for the members after it. */
  lemma MemberListStep(lib: Library, k: nat, j: nat, mem: Memory, inst: int, offset: int, codec: Codec,
                       rule: ReflSerialize.WriteRule, fuel: nat, ns: seq<Node>) returns (rest: seq<Node>)
    requires k < |lib.descs| && j < |lib.descs[k].members|
    requires SerializeMemberList(lib, k, j, mem, inst, offset, codec, rule, fuel) == Ok(ns)
    ensures SerializeMemberList(lib, k, j + 1, mem, inst, offset, codec, rule, fuel) == Ok(rest)
    ensures |ns| > 0 && MemberNode(lib.descs[k].members[j], ns[0]) && ns[1..] == rest
  {
    var m := lib.descs[k].members[j];
    var node := SerializeMember(lib, m, mem, inst, offset, codec, rule, fuel).value;
    rest := SerializeMemberList(lib, k, j + 1, mem, inst, offset, codec, rule, fuel).value;
    assert ([node] + rest)[1..] == rest;
  }

  /** The "DataMember" nodes from position `j` on: one per member, in list
      order, each naming its member and its kind. */
  lemma {:induction false} MemberNodes(lib: Library, k: nat, j: nat, mem: Memory, inst: int, offset: int,
                                       codec: Codec, rule: ReflSerialize.WriteRule, fuel: nat, ns: seq<Node>)
    requires k < |lib.descs| && j <= |lib.descs[k].members|
    requires SerializeMemberList(lib, k, j, mem, inst, offset, codec, rule, fuel) == Ok(ns)
    ensures var ms := lib.descs[k].members[j..];
            |ns| == |ms| && forall t :: 0 <= t < |ns| ==> MemberNode(ms[t], ns[t])
    decreases |lib.descs[k].members| - j
  {
    if j < |lib.descs[k].members| {
      var rest := MemberListStep(lib, k, j, mem, inst, offset, codec, rule, fuel, ns);
      MemberNodes(lib, k, j + 1, mem, inst, offset, codec, rule, fuel, rest);
      var ms := lib.descs[k].members[j..];
      assert ms[1..] == lib.descs[k].members[j + 1..];
      forall t | 1 <= t < |ns|
        ensures MemberNode(ms[t], ns[t])
      {
        assert ns[t] == rest[t - 1] && ms[t] == ms[1..][t - 1];
      }
    }
  }

  /** One step of `SerializeMembers`: the parents' nodes, then the own
      members' nodes. */
  lemma MembersStep(lib: Library, k: nat, mem: Memory, inst: int, offset: int, codec: Codec, rule: ReflSerialize.WriteRule, fuel: nat,
                    cs: seq<Node>) returns (ps: seq<Node>, ms: seq<Node>)
    requires k < |lib.descs|
    requires SerializeMembers(lib, k, mem, inst, offset, codec, rule, fuel) == Ok(cs)
    ensures SerializeParents(lib, k, 0, mem, inst, offset, codec, rule, fuel) == Ok(ps)
    ensures SerializeMemberList(lib, k, 0, mem, inst, offset, codec, rule, fuel) == Ok(ms)
    ensures cs == ps + ms
  {
    ps := SerializeParents(lib, k, 0, mem, inst, offset, codec, rule, fuel).value;
    ms := SerializeMemberList(lib, k, 0, mem, inst, offset, codec, rule, fuel).value;
  }

  /** The first children `SerializeMembers` writes: one "BaseClass" node
      per parent, in list order, naming the parent. */
  lemma ParentChildren(lib: Library, k: nat, mem: Memory, inst: int, offset: int, codec: Codec, rule: ReflSerialize.WriteRule, fuel: nat,
                       cs: seq<Node>)
    requires k < |lib.descs|
    requires SerializeMembers(lib, k, mem, inst, offset, codec, rule, fuel) == Ok(cs)
    ensures var ps := lib.descs[k].parents;
            |ps| <= |cs| && forall t :: 0 <= t < |ps| ==> ParentNode(lib, ps[t], cs[t])
  {
    var ps, ms := MembersStep(lib, k, mem, inst, offset, codec, rule, fuel, cs);
    ParentNodes(lib, k, 0, mem, inst, offset, codec, rule, fuel, ps);
    assert lib.descs[k].parents[0..] == lib.descs[k].parents;
  }

  /** The remaining children: one "DataMember" node per member, in list
      order, naming the member and its kind. */
  lemma MemberChildren(lib: Library, k: nat, mem: Memory, inst: int, offset: int, codec: Codec, rule: ReflSerialize.WriteRule, fuel: nat,
                       cs: seq<Node>)
    requires k < |lib.descs|
    requires SerializeMembers(lib, k, mem, inst, offset, codec, rule, fuel) == Ok(cs)
    ensures var d := lib.descs[k];
            |cs| == |d.parents| + |d.members| &&
            forall t :: 0 <= t < |d.members| ==> MemberNode(d.members[t], cs[|d.parents| + t])
  {
    var d := lib.descs[k];
    var ps, ms := MembersStep(lib, k, mem, inst, offset, codec, rule, fuel, cs);
    ParentCount(lib, k, 0, mem, inst, offset, codec, rule, fuel, ps);
    MemberNodes(lib, k, 0, mem, inst, offset, codec, rule, fuel, ms);
    assert d.members[0..] == d.members;
    MemberNodesAfter(d.members, ps, ms, cs);
  }

  /** Member nodes keep their order after the parents' nodes. */
  lemma MemberNodesAfter(members: seq<LegacyMember>, ps: seq<Node>, ms: seq<Node>, cs: seq<Node>)
    requires cs == ps + ms
    requires |ms| == |members| && forall t :: 0 <= t < |ms| ==> MemberNode(members[t], ms[t])
    ensures |cs| == |ps| + |members|
    ensures forall t :: 0 <= t < |members| ==> MemberNode(members[t], cs[|ps| + t])
  {
    forall t | 0 <= t < |members|
      ensures cs[|ps| + t] == ms[t]
    {
    }
  }

  /** What `Serialize` writes for an object: a "Class" node with the
      descriptor's name and no version, holding the parents' nodes and then
      the members' nodes. */
  lemma SerializedLayout(lib: Library, k: nat, mem: Memory, inst: int, codec: Codec)
    requires k < |lib.descs| && Serialize(lib, k, mem, inst, codec).Ok?
    ensures var n := Serialize(lib, k, mem, inst, codec).value;
            n.name == ReflSerialize.ClassNode && Attribute(n, ReflSerialize.TypeKey) == Some(lib.descs[k].name) &&
            Attribute(n, ReflSerialize.VersionKey).None?
    ensures var n := Serialize(lib, k, mem, inst, codec).value;
            var d := lib.descs[k];
            |n.children| == |d.parents| + |d.members| &&
            (forall t :: 0 <= t < |d.parents| ==> ParentNode(lib, d.parents[t], n.children[t])) &&
            (forall t :: 0 <= t < |d.members| ==> MemberNode(d.members[t], n.children[|d.parents| + t]))
  {
    var cs := SerializeMembers(lib, k, mem, inst, 0, codec, ReflSerialize.Corrected, Depth(lib)).value;
    assert Serialize(lib, k, mem, inst, codec).value.children == cs;
    ParentChildren(lib, k, mem, inst, 0, codec, ReflSerialize.Corrected, Depth(lib), cs);
    MemberChildren(lib, k, mem, inst, 0, codec, ReflSerialize.Corrected, Depth(lib), cs);
  }

  /** A member that is not a class is written as its tag holding its
      value's text. */
  lemma DataMemberWritten(lib: Library, m: LegacyMember, mem: Memory, inst: int, offset: int, codec: Codec,
                          rule: ReflSerialize.WriteRule, fuel: nat, address: int, text: string)
    requires m.index != Class && address == inst + m.offset + offset
    requires DataText(m, CellAt(mem, address), codec, rule) == Ok(text)
    ensures SerializeMember(lib, m, mem, inst, offset, codec, rule, fuel) == Ok(MemberTag(m).(value := text))
  {
  }

  /** A member that is not a class is written alike by the program and by
      the corrected writer when its stored value is below 256. */
  lemma DataMemberRulesAgree(lib: Library, m: LegacyMember, mem: Memory, inst: int, offset: int, codec: Codec,
                             fuel: nat)
    requires m.index != Class && 0 <= IntOf(CellAt(mem, inst + m.offset + offset)) < 0x100
    ensures SerializeMember(lib, m, mem, inst, offset, codec, ReflSerialize.AsWritten, fuel)
            == SerializeMember(lib, m, mem, inst, offset, codec, ReflSerialize.Corrected, fuel)
  {
    DataTextAgreesOnLowValues(m, CellAt(mem, inst + m.offset + offset), codec);
  }
}
