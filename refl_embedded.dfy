/** Where `Serialize` of the newer engine reads an embedded class member's
    fields. `ReflMember::Serialize` hands the embedded descriptor the outer
    object's `ReflClass` pointer, and `ReflTypeDesc::Serialize` shifts that
    pointer back by the embedded descriptor's own offsets; the reader puts
    the same fields at the outer object's start plus the member's offset. The
    two places coincide only when the embedded descriptor's offsets are
    those of the outer object. */
module ReflEmbedded {
  import opened Common
  import opened TextFormat
  import opened PrimitiveTable
  import opened ReflData
  import opened ReflLookup
  import opened Stream
  import opened ReflMarshal
  import opened ReflSerialize
  import opened ReflLookupProps
  import opened ReflDeserialize

  /** `Outer` (no parents, `ReflClass` at its start) embeds an `Inner` at
      offset 0; `Inner`'s `ReflClass` sits 4 bytes into it, after its
      `int32` field `value`. */
  function InnerDesc(): Desc
  {
    NewDesc("Inner", 8, 0, 4, Some(1)).(members := [Member("value", NameHash("value"), TypeHash(Int32), Int32, 4, 0, None, false, NullAddress)])
  }

  function OuterDesc(): Desc
  {
    NewDesc("Outer", 8, 0, 0, Some(0)).(members := [Member("inner", NameHash("inner"), NameHash("Inner"), Class, 8, 0, None, false, NullAddress)])
  }

  function Embedding(): Registry
  {
    Registry([OuterDesc(), InnerDesc()], [])
  }

  /** `Inner`'s "DataMember" node for `value`, written as `text`. */
  function ValueNode(text: string): Node
  {
    Node(DataMemberNode, [Attr(NameKey, "value"), Attr(TypeKey, "int32")], text, [])
  }

  /** `Inner`'s "Class" node, nested in `Outer`'s node for `inner`. */
  function InnerClassNode(text: string): Node
  {
    DescNode(ClassNode, InnerDesc()).(children := [ValueNode(text)])
  }

  /** `Outer`'s "DataMember" node for its embedded `inner`. */
  function InnerMemberNode(text: string): Node
  {
    Node(DataMemberNode, [Attr(NameKey, "inner"), Attr(TypeKey, "class")], "", [InnerClassNode(text)])
  }

  /** The document written for an `Outer` whose embedded `value` is written
      as `text`. */
  function OuterNode(text: string): Node
  {
    DescNode(ClassNode, OuterDesc()).(children := [InnerMemberNode(text)])
  }

  lemma EmbeddedLookup()
    ensures GetClassDesc(Embedding(), NameHash("Inner")) == Some(1)
  {
    assert Fold("Outer")[0] == 'o';
    assert Fold("Inner")[0] == 'i';
    assert Embedding().descs[0].hash != NameHash("Inner");
    assert DescIndexFrom(Embedding().descs, NameHash("Inner"), 1) == Some(1);
  }

  /** `Inner`'s "Class" node for the object starting at `start`: `value`
      is read at `start`. */
  lemma InnerWritten(mem: Memory, inst: int, start: int, codec: Codec, rule: WriteRule, fuel: nat)
    ensures SerializeAt(Embedding(), 1, mem, inst, start, 0, codec, rule, fuel) ==
            Ok(OuterNode(DecimalText(Wrap(Int32, IntOf(CellAt(mem, start))))).children[0].children[0])
  {
    var reg := Embedding();
    var m := InnerDesc().members[0];
    assert MemberTypeName(reg, m) == Ok("int32");
    var text := DecimalText(Wrap(Int32, IntOf(CellAt(mem, start))));
    assert MemberText(reg, Int32, m.typeHash, CellAt(mem, start), codec) == Ok(text);
    var tag := Node(DataMemberNode, [Attr(NameKey, m.name), Attr(TypeKey, "int32")], "", []);
    assert SerializeMember(reg, m, mem, inst, start, 0, codec, rule, fuel) == Ok(Some(tag.(value := text)));
    assert reg.descs[1].members == [m];
    assert SerializeMemberList(reg, 1, 1, mem, inst, start, 0, codec, rule, fuel) == Ok([]);
    assert [tag.(value := text)] + [] == [tag.(value := text)];
    assert SerializeMemberList(reg, 1, 0, mem, inst, start, 0, codec, rule, fuel) == Ok([tag.(value := text)]);
    assert reg.descs[1].parents == [];
    assert SerializeParents(reg, 1, 0, mem, inst, start, 0, codec, rule, fuel) == Ok([]);
    assert [] + [tag.(value := text)] == [tag.(value := text)];
    assert SerializeMembers(reg, 1, mem, inst, start, 0, codec, rule, fuel) == Ok([tag.(value := text)]);
  }

  /** `Outer`'s document when the embedded object is read from `start`. */
  lemma OuterWritten(mem: Memory, inst: int, start: int, codec: Codec, rule: WriteRule)
    requires start == if rule == AsWritten then inst - 4 else inst
    ensures SerializeAt(Embedding(), 0, mem, inst, inst, 0, codec, rule, Depth(Embedding())) ==
            Ok(OuterNode(DecimalText(Wrap(Int32, IntOf(CellAt(mem, start))))))
  {
    var reg := Embedding();
    EmbeddedLookup();
    var fuel := Depth(reg);
    var m := OuterDesc().members[0];
    assert TypeName(Class) == "class";
    assert MemberTypeName(reg, m) == Ok("class");
    assert start == if rule == AsWritten then CastToBase(reg.descs[1], inst) else inst;
    InnerWritten(mem, inst, start, codec, rule, fuel - 1);
    var text := DecimalText(Wrap(Int32, IntOf(CellAt(mem, start))));
    var node := OuterNode(text).children[0];
    assert SerializeMember(reg, m, mem, inst, inst, 0, codec, rule, fuel) == Ok(Some(node));
    assert reg.descs[0].members == [m];
    assert SerializeMemberList(reg, 0, 1, mem, inst, inst, 0, codec, rule, fuel) == Ok([]);
    assert [node] + [] == [node];
    assert SerializeMemberList(reg, 0, 0, mem, inst, inst, 0, codec, rule, fuel) == Ok([node]);
    assert reg.descs[0].parents == [];
    assert SerializeParents(reg, 0, 0, mem, inst, inst, 0, codec, rule, fuel) == Ok([]);
    assert [] + [node] == [node];
    assert SerializeMembers(reg, 0, mem, inst, inst, 0, codec, rule, fuel) == Ok([node]);
  }

  /** For an `Outer` whose `ReflClass` is at `inst`, `Serialize` as written
      reads `value` 4 bytes before the object, where the object does not
      reach; the corrected `Serialize` reads it at `inst`, the address the
      reader stores it to. Two different values there give two different
      documents. */
  lemma EmbeddedMemberMisread(mem: Memory, inst: int, codec: Codec)
    ensures SerializeAsWritten(Embedding(), 0, mem, inst, codec) ==
            Ok(OuterNode(DecimalText(Wrap(Int32, IntOf(CellAt(mem, inst - 4))))))
    ensures Serialize(Embedding(), 0, mem, inst, codec) ==
            Ok(OuterNode(DecimalText(Wrap(Int32, IntOf(CellAt(mem, inst))))))
    ensures Wrap(Int32, IntOf(CellAt(mem, inst - 4))) != Wrap(Int32, IntOf(CellAt(mem, inst))) ==>
            SerializeAsWritten(Embedding(), 0, mem, inst, codec) != Serialize(Embedding(), 0, mem, inst, codec)
  {
    OuterWritten(mem, inst, inst - 4, codec, AsWritten);
    OuterWritten(mem, inst, inst, codec, Corrected);
    var a := Wrap(Int32, IntOf(CellAt(mem, inst - 4)));
    var b := Wrap(Int32, IntOf(CellAt(mem, inst)));
    if a != b {
      DecimalRoundTrip(a);
      DecimalRoundTrip(b);
      assert OuterNode(DecimalText(a)).children[0].children[0].children[0].value == DecimalText(a);
    }
  }

  /** `value`'s node, holding the decimal text of an `int32` value `w`, is
      read at the start of the object: `w` is stored at `base`, and nothing
      else changes. */
  lemma ValueNodeRead(w: int, mem: Memory, base: int, hooks: Hooks)
    requires InRange(Int32, w)
    ensures DataMemberNodeRead(Embedding(), 1, ValueNode(DecimalText(w)), mem, base, 0, hooks) ==
            Ok(mem[base := Int(w)])
  {
    var reg := Embedding();
    var c := ValueNode(DecimalText(w));
    assert NameKey[0] != TypeKey[0];
    assert AttributeBelow(c.attributes, NameKey, 1) == Some("value");
    assert Attribute(c, NameKey) == Some("value");
    assert OwnMember(reg.descs[1], NameHash("value")) == Some(0);
    FindMemberWithoutParents(reg, 1, NameHash("value"), Depth(reg));
    var m := reg.descs[1].members[0];
    ValueMatchingRead(w, mem, base, hooks);
    assert MemberDeserialize(reg, m, NameHash("value"), c, mem, CastToReflClass(reg.descs[1], base), base, 0, hooks)
           == Ok(mem[base := Int(w)]);
  }

  /** The node's `int32` type is `value`'s own, so its text is parsed and
      stored at `value`'s address. */
  lemma ValueMatchingRead(w: int, mem: Memory, base: int, hooks: Hooks)
    requires InRange(Int32, w)
    ensures var c := ValueNode(DecimalText(w));
            Attribute(c, TypeKey) == Some("int32") &&
            TypeMatches(Int32, NameHash("int32"), InnerDesc().members[0].typeHash) &&
            MatchingRead(Embedding(), InnerDesc().members[0], c, mem, base, 0, hooks) == Ok(mem[base := Int(w)])
  {
    var reg := Embedding();
    var m := InnerDesc().members[0];
    TypeHashIsNameHash(Int32);
    MemberRoundTrip(reg, Int32, m.typeHash, w, ValueLength, CellAt(mem, base), hooks.garbage, hooks.codec);
    WrapInRange(Int32, w);
    assert MemberText(reg, Int32, m.typeHash, Int(w), hooks.codec) == Ok(DecimalText(w));
  }

  /** Reading `Inner`'s "Class" node, holding the decimal text of an `int32`
      value `w`, into the object that starts at `base` stores `w` at `base`,
      where `value` lies, and nothing else. */
  lemma InnerRead(w: int, mem: Memory, base: int, hooks: Hooks)
    requires InRange(Int32, w)
    ensures DeserializeDesc(Embedding(), 1, InnerClassNode(DecimalText(w)), mem, base, 0, hooks) ==
            Ok(mem[base := Int(w)])
  {
    var reg := Embedding();
    var e := InnerClassNode(DecimalText(w));
    var r := mem[base := Int(w)];
    assert e.attributes == DescNode(ClassNode, InnerDesc()).attributes;
    assert Attribute(e, VersionKey) == Some(HexText(1));
    HexRoundTrip(1);
    assert ReadVersion(e) == Ok(1);
    assert Named(e.children[0], DataMemberNode);
    ValueNodeRead(w, mem, base, hooks);
    assert DeserializeChild(reg, 1, e.children[0], mem, base, 0, hooks) == Ok(r);
    assert DeserializeNodes(reg, 1, e, 1, r, base, 0, hooks) == Ok(r);
    assert DeserializeNodes(reg, 1, e, 0, mem, base, 0, hooks) == Ok(r);
    assert FinalizeInst(reg.descs[1], base, r, hooks) == r;
  }

  /** `Outer`'s node for `inner`, holding the decimal text of `w` for the
      embedded `value`, read into the object that starts at `inst`, stores
      `w` at `inst` and nothing else. */
  lemma InnerMemberRead(w: int, mem: Memory, inst: int, hooks: Hooks)
    requires InRange(Int32, w)
    ensures DataMemberNodeRead(Embedding(), 0, InnerMemberNode(DecimalText(w)), mem, inst, 0, hooks) ==
            Ok(mem[inst := Int(w)])
  {
    var reg := Embedding();
    var c := InnerMemberNode(DecimalText(w));
    assert NameKey[0] != TypeKey[0];
    assert AttributeBelow(c.attributes, NameKey, 1) == Some("inner");
    assert Attribute(c, NameKey) == Some("inner");
    assert OwnMember(reg.descs[0], NameHash("inner")) == Some(0);
    FindMemberWithoutParents(reg, 0, NameHash("inner"), Depth(reg));
    var m := reg.descs[0].members[0];
    ClassMemberRead(w, mem, inst, hooks);
    assert MemberDeserialize(reg, m, NameHash("inner"), c, mem, CastToReflClass(reg.descs[0], inst), inst, 0, hooks)
           == Ok(mem[inst := Int(w)]);
  }

  /** The node's type is `inner`'s class type, so `DeserializeClassMember`
      reads the nested "Class" node as an `Inner` at the member's offset. */
  lemma ClassMemberRead(w: int, mem: Memory, inst: int, hooks: Hooks)
    requires InRange(Int32, w)
    ensures var c := InnerMemberNode(DecimalText(w));
            Attribute(c, TypeKey) == Some("class") &&
            TypeMatches(Class, NameHash("class"), OuterDesc().members[0].typeHash) &&
            MatchingRead(Embedding(), OuterDesc().members[0], c, mem, inst, 0, hooks) == Ok(mem[inst := Int(w)])
  {
    var reg := Embedding();
    var c := InnerMemberNode(DecimalText(w));
    var e := c.children[0];
    var m := OuterDesc().members[0];
    EmbeddedLookup();
    TypeHashIsNameHash(Class);
    assert NameKey[0] != TypeKey[0];
    assert Attribute(c, TypeKey) == Some("class");
    assert Named(e, ClassNode);
    assert e.attributes == DescNode(ClassNode, InnerDesc()).attributes;
    assert Attribute(e, TypeKey) == Some("Inner");
    InnerRead(w, mem, inst, hooks);
    assert DeserializeClassMember(reg, m, c, mem, inst, 0, hooks) == Ok(mem[inst := Int(w)]);
  }

  /** Reading `Outer`'s document, holding the decimal text of `w` for the
      embedded `value`, into the object whose `ReflClass` is at `inst`
      stores `w` at `inst` and nothing else. */
  lemma OuterRead(w: int, mem: Memory, inst: int, hooks: Hooks)
    requires InRange(Int32, w)
    ensures Deserialize(Embedding(), 0, OuterNode(DecimalText(w)), mem, inst, hooks) == Ok(mem[inst := Int(w)])
  {
    var reg := Embedding();
    var n := OuterNode(DecimalText(w));
    var r := mem[inst := Int(w)];
    assert n.attributes == DescNode(ClassNode, OuterDesc()).attributes;
    assert Attribute(n, VersionKey) == Some(HexText(1));
    HexRoundTrip(1);
    assert ReadVersion(n) == Ok(1);
    assert CastToBase(reg.descs[0], inst) == inst;
    assert Named(n.children[0], DataMemberNode);
    InnerMemberRead(w, mem, inst, hooks);
    assert DeserializeChild(reg, 0, n.children[0], mem, inst, 0, hooks) == Ok(r);
    assert DeserializeNodes(reg, 0, n, 1, r, inst, 0, hooks) == Ok(r);
    assert DeserializeNodes(reg, 0, n, 0, mem, inst, 0, hooks) == Ok(r);
  }

  /** The round trip of the embedded member. The corrected `Serialize`
      writes `value` from `inst`, where `Deserialize` stores it back, so an
      `int32` held there is restored into any storage; `SerializeAsWritten`
      writes what lies 4 bytes before the object, and reading its document
      stores that at `inst` instead. */
  lemma EmbeddedRoundTrip(mem: Memory, cur: Memory, inst: int, hooks: Hooks)
    ensures Serialize(Embedding(), 0, mem, inst, hooks.codec).Ok?
    ensures CellAt(mem, inst).Int? && InRange(Int32, CellAt(mem, inst).v) ==>
            Deserialize(Embedding(), 0, Serialize(Embedding(), 0, mem, inst, hooks.codec).value, cur, inst, hooks) ==
            Ok(cur[inst := CellAt(mem, inst)])
    ensures SerializeAsWritten(Embedding(), 0, mem, inst, hooks.codec).Ok?
    ensures Deserialize(Embedding(), 0, SerializeAsWritten(Embedding(), 0, mem, inst, hooks.codec).value, cur, inst,
                        hooks) ==
            Ok(cur[inst := Int(Wrap(Int32, IntOf(CellAt(mem, inst - 4))))])
  {
    EmbeddedMemberMisread(mem, inst, hooks.codec);
    var a := Wrap(Int32, IntOf(CellAt(mem, inst - 4)));
    var b := Wrap(Int32, IntOf(CellAt(mem, inst)));
    OuterRead(a, cur, inst, hooks);
    OuterRead(b, cur, inst, hooks);
    if CellAt(mem, inst).Int? && InRange(Int32, CellAt(mem, inst).v) {
      WrapInRange(Int32, CellAt(mem, inst).v);
    }
  }
}
