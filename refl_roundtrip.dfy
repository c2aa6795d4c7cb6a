/** Writing an object with `Serialize` and reading the tree back with
    `Deserialize`: for an object whose descriptor passed `Finalize`'s
    uniqueness check, whose parent links resolve, and whose live members are
    booleans, integers or enums holding values they can write, reading the
    tree into any storage sets every cell `Serialize` read, its own members'
    and every parent part's, to the value it had in the object written, and
    changes nothing else. */
module ReflRoundTrip {
  import opened Common
  import opened PrimitiveTable
  import opened ReflData
  import opened ReflLookup
  import opened ReflLookupProps
  import opened ReflFinalize
  import opened ReflMarshal
  import opened ReflSerialize
  import opened ReflDeserialize
  import opened ReflCells
  import opened Stream

  /** An enum type registered under its own name, whose display names tell
      its values apart within the length a value is read with. */
  predicate EnumDirect(reg: Registry, h: Hash)
  {
    GetClassDesc(reg, h).Some? &&
    var e := reg.descs[GetClassDesc(reg, h).value];
    e.hash == h && NameHash(e.name) == h && NamesDetermineValues(e, ValueLength)
  }

  /** A value a member can write as text and read back. */
  predicate Restorable(reg: Registry, m: Member, c: Cell)
  {
    c.Int? && Representable(reg, m.index, m.typeHash, c.v) && (m.index == Enum ==> EnumDirect(reg, m.typeHash))
  }

  /** The text of a result that succeeded, and "" otherwise. */
  function TextOf(r: Result<string>): string
  {
    if r.Ok? then r.value else ""
  }

  /** The "DataMember" node `Serialize` writes for live member `m` holding
      `c`: its name, its type name and the text of the value. */
  function WrittenNode(reg: Registry, m: Member, c: Cell, codec: Codec): Node
  {
    Node(DataMemberNode, [Attr(NameKey, m.name), Attr(TypeKey, TextOf(MemberTypeName(reg, m)))],
         TextOf(MemberText(reg, m.index, m.typeHash, c, codec)), [])
  }

  /** Descriptor `k`'s own part of an object at `at` reads back what it
      writes: no versioning or finalize callback, members hashed by their
      own names that pass `Finalize`'s uniqueness check, parent links that
      resolve and end, and live members holding values they can write. */
  ghost predicate RestorablePart(reg: Registry, k: nat, mem: Memory, at: int)
    requires k < |reg.descs|
  {
    var d := reg.descs[k];
    d.versioningFunc.None? && d.finalizeFunc.None? &&
    UniqueAfter(reg, k, 0) && Grounded(reg, k, Depth(reg) - 1) &&
    (forall j :: 0 <= j < |d.members| ==> d.members[j].nameHash == NameHash(d.members[j].name)) &&
    (forall j :: 0 <= j < |d.members| && !d.members[j].deprecated ==>
       Restorable(reg, d.members[j], CellAt(mem, at + d.members[j].offset)))
  }

  /** The object of descriptor `k` starting at `at` reads back what it
      writes: its own part does, and each direct parent is registered under
      its own name, listed once, and itself such an object at its
      `baseOffset`. `fuel` is the nesting `Serialize`
      allows below `k`. */
  ghost predicate RestorableObject(reg: Registry, k: nat, mem: Memory, at: int, fuel: nat)
    requires k < |reg.descs|
    decreases fuel
  {
    var d := reg.descs[k];
    RestorablePart(reg, k, mem, at) &&
    forall i {:trigger ParentDesc(reg, k, i)} :: 0 <= i < |d.parents| ==>
      fuel > 0 && ParentDesc(reg, k, i).Some? &&
      var pk := ParentDesc(reg, k, i).value;
      var h := d.parents[i].parentHash;
      reg.descs[pk].hash == h && NameHash(reg.descs[pk].name) == h && FindParent(d, h) == Some(i) &&
      RestorableObject(reg, pk, mem, at + d.parents[i].baseOffset, fuel - 1)
  }

  /** Reading the nodes `cs` one after another as children of a node of
      descriptor `k`. */
  function ReadAll(reg: Registry, k: nat, cs: seq<Node>, mem: Memory, base: int, offset: int,
                   hooks: Hooks): Result<Memory>
    requires k < |reg.descs|
    decreases |cs|
  {
    if cs == [] then Ok(mem)
    else
      match DeserializeChild(reg, k, cs[0], mem, base, offset, hooks)
      case Fatal(reason) => Fatal(reason)
      case Ok(m) => ReadAll(reg, k, cs[1..], m, base, offset, hooks)
  }

  /** The member walk from child `i` on reads the children from `i` on. */
  lemma {:induction false} NodesReadAll(reg: Registry, k: nat, n: Node, i: nat, mem: Memory, base: int,
                                        offset: int, hooks: Hooks)
    requires k < |reg.descs| && i <= |n.children|
    ensures DeserializeNodes(reg, k, n, i, mem, base, offset, hooks) ==
            ReadAll(reg, k, n.children[i..], mem, base, offset, hooks)
    decreases |n.children| - i
  {
    if i < |n.children| {
      assert n.children[i..][0] == n.children[i];
      assert n.children[i..][1..] == n.children[i + 1..];
      match DeserializeChild(reg, k, n.children[i], mem, base, offset, hooks)
      case Fatal(_) =>
      case Ok(m) => NodesReadAll(reg, k, n, i + 1, m, base, offset, hooks);
    }
  }

  /** Reading `xs + ys` reads `xs`, then `ys` over what `xs` left. */
  lemma {:induction false} ReadAllAppend(reg: Registry, k: nat, xs: seq<Node>, ys: seq<Node>, mem: Memory,
                                         base: int, offset: int, hooks: Hooks)
    requires k < |reg.descs|
    ensures ReadAll(reg, k, xs + ys, mem, base, offset, hooks) ==
            match ReadAll(reg, k, xs, mem, base, offset, hooks)
            case Fatal(reason) => Fatal(reason)
            case Ok(m) => ReadAll(reg, k, ys, m, base, offset, hooks)
    decreases |xs|
  {
    if xs == [] {
      assert xs + ys == ys;
    } else {
      assert (xs + ys)[0] == xs[0];
      assert (xs + ys)[1..] == xs[1..] + ys;
      match DeserializeChild(reg, k, xs[0], mem, base, offset, hooks)
      case Fatal(_) =>
      case Ok(m) => ReadAllAppend(reg, k, xs[1..], ys, m, base, offset, hooks);
    }
  }

  /** What a restorable part says about its own descriptor and members. */
  lemma PartFacts(reg: Registry, k: nat, mem: Memory, at: int)
    requires k < |reg.descs| && RestorablePart(reg, k, mem, at)
    ensures UniqueAfter(reg, k, 0) && Grounded(reg, k, Depth(reg) - 1)
    ensures reg.descs[k].versioningFunc.None? && reg.descs[k].finalizeFunc.None?
    ensures forall j :: 0 <= j < |reg.descs[k].members| ==>
              reg.descs[k].members[j].nameHash == NameHash(reg.descs[k].members[j].name)
    ensures forall j :: 0 <= j < |reg.descs[k].members| && !reg.descs[k].members[j].deprecated ==>
              Restorable(reg, reg.descs[k].members[j], CellAt(mem, at + reg.descs[k].members[j].offset))
  {
  }

  /** What a restorable object at `base + offset` says about its direct
      parent `i`, whose part starts at `off`, `baseOffset` further on. */
  lemma ParentFacts(reg: Registry, k: nat, i: nat, mem: Memory, base: int, offset: int, off: int, fuel: nat)
    returns (pk: nat)
    requires k < |reg.descs| && RestorableObject(reg, k, mem, base + offset, fuel) && i < |reg.descs[k].parents|
    requires off == offset + reg.descs[k].parents[i].baseOffset
    ensures fuel > 0 && pk < |reg.descs| && ParentDesc(reg, k, i) == Some(pk)
    ensures var h := reg.descs[k].parents[i].parentHash;
            GetClassDesc(reg, h) == Some(pk) && reg.descs[pk].hash == h && NameHash(reg.descs[pk].name) == h &&
            FindParent(reg.descs[k], h) == Some(i)
    ensures RestorableObject(reg, pk, mem, base + off, fuel - 1)
  {
    pk := ParentDesc(reg, k, i).value;
    assert base + off == base + offset + reg.descs[k].parents[i].baseOffset;
  }

  /** What a restorable part says about its member `j`. */
  lemma MemberFacts(reg: Registry, k: nat, j: nat, mem: Memory, base: int, offset: int)
    requires k < |reg.descs| && RestorablePart(reg, k, mem, base + offset) && j < |reg.descs[k].members|
    ensures UniqueAfter(reg, k, 0) && Grounded(reg, k, Depth(reg) - 1)
    ensures var m := reg.descs[k].members[j];
            m.nameHash == NameHash(m.name) &&
            (!m.deprecated ==> Restorable(reg, m, CellAt(mem, base + m.offset + offset)))
  {
    var m := reg.descs[k].members[j];
    assert base + m.offset + offset == base + offset + m.offset;
  }

  /** In a part that passed the uniqueness check, a member's own name finds
      it, at offset 0: no parent finds the name, whatever fuel the search
      of the parents is given, and no earlier member has its hash. */
  lemma FindsOwnMember(reg: Registry, k: nat, j: nat)
    requires k < |reg.descs| && UniqueAfter(reg, k, 0) && Grounded(reg, k, Depth(reg) - 1)
    requires j < |reg.descs[k].members| && reg.descs[k].members[j].nameHash == NameHash(reg.descs[k].members[j].name)
    ensures FindMember(reg, k, NameHash(reg.descs[k].members[j].name)) == Ok(Some(Found(k, j, 0)))
  {
    var d := reg.descs[k];
    var h := d.members[j].nameHash;
    assert MemberUnique(reg, k, j);
    forall q | 0 <= q < |d.parents|
      ensures ParentDesc(reg, k, q).Some? && FindMemberIn(reg, ParentDesc(reg, k, q).value, h, Depth(reg) - 1) == Ok(None)
    {
      var pk := ParentDesc(reg, k, q).value;
      GroundedMonotone(reg, pk, Depth(reg) - 2, Depth(reg) - 1);
      FindMemberFuel(reg, pk, h, Depth(reg) - 1, Depth(reg));
    }
    SearchParentsNone(reg, k, h, 0, Depth(reg) - 1);
    UniqueAfterDistinct(reg, k);
    FindLocalMemberFirst(d, h);
  }

  /** A live member holding a value it can write is written as its
      `WrittenNode`. */
  lemma MemberWrites(reg: Registry, m: Member, mem: Memory, inst: int, base: int, offset: int, codec: Codec,
                     fuel: nat)
    requires !m.deprecated && Restorable(reg, m, CellAt(mem, base + m.offset + offset))
    ensures SerializeMember(reg, m, mem, inst, base, offset, codec, Corrected, fuel)
            == Ok(Some(WrittenNode(reg, m, CellAt(mem, base + m.offset + offset), codec)))
  {
    var a := base + m.offset + offset;
    var typeName, text := WrittenParts(reg, m, CellAt(mem, a), codec);
    PartsWritten(reg, m, mem, inst, base, offset, codec, fuel, typeName, text);
  }

  /** A live data member whose type name and text are known is written as
      its `WrittenNode`. */
  lemma PartsWritten(reg: Registry, m: Member, mem: Memory, inst: int, base: int, offset: int, codec: Codec,
                     fuel: nat, typeName: string, text: string)
    requires !m.deprecated && m.index != Class && MemberTypeName(reg, m) == Ok(typeName)
    requires var c := CellAt(mem, base + m.offset + offset);
             MemberText(reg, m.index, m.typeHash, c, codec) == Ok(text) && DataText(reg, m, c, codec, Corrected) == Ok(text)
    ensures SerializeMember(reg, m, mem, inst, base, offset, codec, Corrected, fuel)
            == Ok(Some(WrittenNode(reg, m, CellAt(mem, base + m.offset + offset), codec)))
  {
    var a := base + m.offset + offset;
    DataMemberWritten(reg, m, mem, inst, base, offset, codec, Corrected, fuel, typeName, a, text);
    WrittenNodeParts(reg, m, CellAt(mem, a), codec, typeName, text);
  }

  /** `WrittenNode` carries the type name and text the member writes. */
  lemma WrittenNodeParts(reg: Registry, m: Member, c: Cell, codec: Codec, typeName: string, text: string)
    requires MemberTypeName(reg, m) == Ok(typeName) && MemberText(reg, m.index, m.typeHash, c, codec) == Ok(text)
    ensures WrittenNode(reg, m, c, codec) == Node(DataMemberNode, [Attr(NameKey, m.name), Attr(TypeKey, typeName)], text, [])
  {
  }

  /** A live, restorable member writes a node that `ReadableNode` accepts
      for any storage the reader starts from. */
  lemma WrittenReadable(reg: Registry, m: Member, mem: Memory, inst: int, base: int, offset: int, codec: Codec,
                        fuel: nat, current: Cell, garbage: int) returns (node: Node)
    requires !m.deprecated && Restorable(reg, m, CellAt(mem, base + m.offset + offset))
    ensures SerializeMember(reg, m, mem, inst, base, offset, codec, Corrected, fuel) == Ok(Some(node))
    ensures ReadableNode(reg, m, node, current, garbage, codec, CellAt(mem, base + m.offset + offset))
  {
    MemberWrites(reg, m, mem, inst, base, offset, codec, fuel);
    MemberNodeReadable(reg, m, CellAt(mem, base + m.offset + offset), current, garbage, codec);
    node := WrittenNode(reg, m, CellAt(mem, base + m.offset + offset), codec);
  }

  /** Reading a node and then the rest. */
  lemma ReadAllCons(reg: Registry, k: nat, c: Node, rest: seq<Node>, mem: Memory, base: int, offset: int,
                    hooks: Hooks, m: Memory, r: Memory)
    requires k < |reg.descs| && DeserializeChild(reg, k, c, mem, base, offset, hooks) == Ok(m)
    requires ReadAll(reg, k, rest, m, base, offset, hooks) == Ok(r)
    ensures ReadAll(reg, k, [c] + rest, mem, base, offset, hooks) == Ok(r)
  {
    assert ([c] + rest)[0] == c;
    assert ([c] + rest)[1..] == rest;
  }

  /** The member list from `j` is member `j`'s node, if it writes one,
      followed by the list from `j + 1`. */
  lemma MemberListCons(reg: Registry, k: nat, j: nat, mem: Memory, inst: int, base: int, offset: int,
                       codec: Codec, fuel: nat, node: Option<Node>, rest: seq<Node>)
    requires k < |reg.descs| && j < |reg.descs[k].members|
    requires SerializeMember(reg, reg.descs[k].members[j], mem, inst, base, offset, codec, Corrected, fuel) == Ok(node)
    requires SerializeMemberList(reg, k, j + 1, mem, inst, base, offset, codec, Corrected, fuel) == Ok(rest)
    ensures SerializeMemberList(reg, k, j, mem, inst, base, offset, codec, Corrected, fuel) ==
            Ok(if node.Some? then [node.value] + rest else rest)
  {
  }

  /** A live member writing `node`, which reads into `cur` as `m1`, ahead
      of the rest of the list: the list from `j` is that node followed by
      the rest, and it reads into `cur` what the rest reads into `m1`. */
  lemma LiveMemberNodes(reg: Registry, k: nat, j: nat, mem: Memory, cur: Memory, inst: int, base: int,
                        offset: int, hooks: Hooks, fuel: nat, node: Node, m1: Memory, rest: seq<Node>, r: Memory)
    requires k < |reg.descs| && j < |reg.descs[k].members|
    requires SerializeMember(reg, reg.descs[k].members[j], mem, inst, base, offset, hooks.codec, Corrected, fuel)
             == Ok(Some(node))
    requires DeserializeChild(reg, k, node, cur, base, offset, hooks) == Ok(m1)
    requires SerializeMemberList(reg, k, j + 1, mem, inst, base, offset, hooks.codec, Corrected, fuel) == Ok(rest)
    requires ReadAll(reg, k, rest, m1, base, offset, hooks) == Ok(r)
    ensures SerializeMemberList(reg, k, j, mem, inst, base, offset, hooks.codec, Corrected, fuel) == Ok([node] + rest)
    ensures ReadAll(reg, k, [node] + rest, cur, base, offset, hooks) == Ok(r)
  {
    MemberListCons(reg, k, j, mem, inst, base, offset, hooks.codec, fuel, Some(node), rest);
    ReadAllCons(reg, k, node, rest, cur, base, offset, hooks, m1, r);
  }

  /** A live member's cell `a` joins the cells restored after it. */
  lemma LiveMemberCells(ms: seq<Member>, j: nat, base: int, offset: int, a: int, r: Memory, cur: Memory,
                        mem: Memory)
    requires j < |ms| && !ms[j].deprecated && a == base + ms[j].offset + offset
    requires r == Overlay(cur[a := CellAt(mem, a)], mem, MemberCells(ms, j + 1, base + offset))
    ensures r == Overlay(cur, mem, MemberCells(ms, j, base + offset))
  {
    assert MemberCells(ms, j, base + offset) == {a} + MemberCells(ms, j + 1, base + offset);
    OverlayCons(cur, mem, a, MemberCells(ms, j + 1, base + offset));
  }

  /** Live member `j` of a restorable part is written as a node that, read
      into any storage, sets the member's cell `a` to the value it held and
      changes nothing else. */
  lemma MemberRestores(reg: Registry, k: nat, j: nat, mem: Memory, cur: Memory, inst: int, base: int,
                       offset: int, a: int, hooks: Hooks, fuel: nat) returns (node: Node, m1: Memory)
    requires k < |reg.descs| && RestorablePart(reg, k, mem, base + offset)
    requires j < |reg.descs[k].members| && !reg.descs[k].members[j].deprecated
    requires a == base + reg.descs[k].members[j].offset + offset
    ensures SerializeMember(reg, reg.descs[k].members[j], mem, inst, base, offset, hooks.codec, Corrected, fuel)
            == Ok(Some(node))
    ensures DeserializeChild(reg, k, node, cur, base, offset, hooks) == Ok(m1)
    ensures m1 == cur[a := CellAt(mem, a)]
  {
    node := PartMemberWritten(reg, k, j, mem, inst, base, offset, a, hooks, fuel, CellAt(cur, a));
    ReadableChildRead(reg, k, j, node, cur, base, offset, a, hooks, CellAt(mem, a));
    m1 := cur[a := CellAt(mem, a)];
  }

  /** The program's own writer, whose enum marshaler looks up the stored
      value's low byte, writes the same node for a member whose stored
      value is below 256, so such a member is restored as well. */
  lemma MemberRestoresAsWritten(reg: Registry, k: nat, j: nat, mem: Memory, cur: Memory, inst: int, base: int,
                                offset: int, a: int, hooks: Hooks, fuel: nat) returns (node: Node, m1: Memory)
    requires k < |reg.descs| && RestorablePart(reg, k, mem, base + offset)
    requires j < |reg.descs[k].members| && !reg.descs[k].members[j].deprecated
    requires a == base + reg.descs[k].members[j].offset + offset && 0 <= IntOf(CellAt(mem, a)) < 0x100
    ensures SerializeMember(reg, reg.descs[k].members[j], mem, inst, base, offset, hooks.codec, AsWritten, fuel)
            == Ok(Some(node))
    ensures DeserializeChild(reg, k, node, cur, base, offset, hooks) == Ok(m1)
    ensures m1 == cur[a := CellAt(mem, a)]
  {
    var m := reg.descs[k].members[j];
    LiveMemberNotClass(reg, k, j, mem, base, offset);
    DataMemberRulesAgree(reg, m, mem, inst, base, offset, hooks.codec, fuel);
    node, m1 := MemberRestores(reg, k, j, mem, cur, inst, base, offset, a, hooks, fuel);
  }

  /** A live member of a restorable part holds a boolean, an integer or an
      enum, never an embedded class. */
  lemma LiveMemberNotClass(reg: Registry, k: nat, j: nat, mem: Memory, base: int, offset: int)
    requires k < |reg.descs| && RestorablePart(reg, k, mem, base + offset)
    requires j < |reg.descs[k].members| && !reg.descs[k].members[j].deprecated
    ensures reg.descs[k].members[j].index != Class
  {
    MemberFacts(reg, k, j, mem, base, offset);
  }

  /** Live member `j` of a restorable part is written as a node that reads
      back, from any storage, as the value it holds, and its name finds it. */
  lemma PartMemberWritten(reg: Registry, k: nat, j: nat, mem: Memory, inst: int, base: int, offset: int, a: int,
                          hooks: Hooks, fuel: nat, current: Cell) returns (node: Node)
    requires k < |reg.descs| && RestorablePart(reg, k, mem, base + offset)
    requires j < |reg.descs[k].members| && !reg.descs[k].members[j].deprecated
    requires a == base + reg.descs[k].members[j].offset + offset
    ensures SerializeMember(reg, reg.descs[k].members[j], mem, inst, base, offset, hooks.codec, Corrected, fuel)
            == Ok(Some(node))
    ensures ReadableNode(reg, reg.descs[k].members[j], node, current, hooks.garbage, hooks.codec, CellAt(mem, a))
    ensures FindMember(reg, k, NameHash(reg.descs[k].members[j].name)) == Ok(Some(Found(k, j, 0)))
  {
    var m := reg.descs[k].members[j];
    MemberFacts(reg, k, j, mem, base, offset);
    FindsOwnMember(reg, k, j);
    node := WrittenReadable(reg, m, mem, inst, base, offset, hooks.codec, fuel, current, hooks.garbage);
  }

  /** A deprecated member writes nothing: the list from `j` is the list
      from `j + 1`. */
  lemma DeprecatedMemberStep(reg: Registry, k: nat, j: nat, mem: Memory, inst: int, base: int, offset: int,
                             codec: Codec, fuel: nat, rest: seq<Node>)
    requires k < |reg.descs| && j < |reg.descs[k].members| && reg.descs[k].members[j].deprecated
    requires SerializeMemberList(reg, k, j + 1, mem, inst, base, offset, codec, Corrected, fuel) == Ok(rest)
    ensures SerializeMemberList(reg, k, j, mem, inst, base, offset, codec, Corrected, fuel) == Ok(rest)
    ensures MemberCells(reg.descs[k].members, j, base + offset) == MemberCells(reg.descs[k].members, j + 1, base + offset)
  {
    MemberListCons(reg, k, j, mem, inst, base, offset, codec, fuel, None, rest);
  }

  /** The own members from `j` on are written and read back onto their
      cells. */
  lemma {:induction false} MemberListRestores(reg: Registry, k: nat, j: nat, mem: Memory, cur: Memory, inst: int,
                                              base: int, offset: int, hooks: Hooks, fuel: nat)
    returns (ns: seq<Node>, r: Memory)
    requires k < |reg.descs| && j <= |reg.descs[k].members| && RestorablePart(reg, k, mem, base + offset)
    ensures SerializeMemberList(reg, k, j, mem, inst, base, offset, hooks.codec, Corrected, fuel) == Ok(ns)
    ensures ReadAll(reg, k, ns, cur, base, offset, hooks) == Ok(r)
    ensures r == Overlay(cur, mem, MemberCells(reg.descs[k].members, j, base + offset))
    decreases |reg.descs[k].members| - j, 1
  {
    if j == |reg.descs[k].members| {
      ns, r := [], cur;
      OverlayNone(cur, mem);
    } else if reg.descs[k].members[j].deprecated {
      ns, r := MemberListRestores(reg, k, j + 1, mem, cur, inst, base, offset, hooks, fuel);
      DeprecatedMemberStep(reg, k, j, mem, inst, base, offset, hooks.codec, fuel, ns);
    } else {
      ns, r := LiveMemberListRestores(reg, k, j, mem, cur, inst, base, offset, hooks, fuel);
    }
  }

  /** `MemberListRestores` from a live member `j`: its node, then the rest. */
  lemma {:induction false} LiveMemberListRestores(reg: Registry, k: nat, j: nat, mem: Memory, cur: Memory,
                                                  inst: int, base: int, offset: int, hooks: Hooks, fuel: nat)
    returns (ns: seq<Node>, r: Memory)
    requires k < |reg.descs| && j < |reg.descs[k].members| && !reg.descs[k].members[j].deprecated
    requires RestorablePart(reg, k, mem, base + offset)
    ensures SerializeMemberList(reg, k, j, mem, inst, base, offset, hooks.codec, Corrected, fuel) == Ok(ns)
    ensures ReadAll(reg, k, ns, cur, base, offset, hooks) == Ok(r)
    ensures r == Overlay(cur, mem, MemberCells(reg.descs[k].members, j, base + offset))
    decreases |reg.descs[k].members| - j, 0
  {
    var a := base + reg.descs[k].members[j].offset + offset;
    var rest;
    rest, r := MemberListRestores(reg, k, j + 1, mem, cur[a := CellAt(mem, a)], inst, base, offset, hooks, fuel);
    LiveMemberCells(reg.descs[k].members, j, base, offset, a, r, cur, mem);
    ns := LiveMemberHead(reg, k, j, mem, cur, inst, base, offset, a, hooks, fuel, rest, r);
  }

  /** Live member `j` of a restorable part ahead of a rest that reads back
      over the storage with the member's cell `a` restored: the list from
      `j` is the member's node followed by the rest, and reads back the
      same. */
  lemma LiveMemberHead(reg: Registry, k: nat, j: nat, mem: Memory, cur: Memory, inst: int, base: int,
                       offset: int, a: int, hooks: Hooks, fuel: nat, rest: seq<Node>, r: Memory)
    returns (ns: seq<Node>)
    requires k < |reg.descs| && RestorablePart(reg, k, mem, base + offset)
    requires j < |reg.descs[k].members| && !reg.descs[k].members[j].deprecated
    requires a == base + reg.descs[k].members[j].offset + offset
    requires SerializeMemberList(reg, k, j + 1, mem, inst, base, offset, hooks.codec, Corrected, fuel) == Ok(rest)
    requires ReadAll(reg, k, rest, cur[a := CellAt(mem, a)], base, offset, hooks) == Ok(r)
    ensures SerializeMemberList(reg, k, j, mem, inst, base, offset, hooks.codec, Corrected, fuel) == Ok(ns)
    ensures ReadAll(reg, k, ns, cur, base, offset, hooks) == Ok(r)
  {
    var node, m1 := MemberRestores(reg, k, j, mem, cur, inst, base, offset, a, hooks, fuel);
    LiveMemberNodes(reg, k, j, mem, cur, inst, base, offset, hooks, fuel, node, m1, rest, r);
    ns := [node] + rest;
  }

  /** A "BaseClass" node is read by `BaseClassNodeRead`. */
  lemma BaseClassChild(reg: Registry, k: nat, c: Node, mem: Memory, base: int, offset: int, hooks: Hooks)
    requires k < |reg.descs| && c.name == BaseClassNode
    ensures DeserializeChild(reg, k, c, mem, base, offset, hooks) == BaseClassNodeRead(reg, k, c, mem, base, offset, hooks)
  {
    assert Fold(Prefix(c.name, |DataMemberNode|))[0] != Fold(Prefix(DataMemberNode, |DataMemberNode|))[0];
  }

  /** A node naming direct parent `i`, registered under its own name and
      listed once, is read as that parent at its `baseOffset`. */
  lemma ParentNodeRead(reg: Registry, k: nat, i: nat, pk: nat, c: Node, mem: Memory, base: int, offset: int,
                       hooks: Hooks)
    requires k < |reg.descs| && i < |reg.descs[k].parents| && pk < |reg.descs|
    requires var h := reg.descs[k].parents[i].parentHash;
             GetClassDesc(reg, h) == Some(pk) && reg.descs[pk].hash == h && FindParent(reg.descs[k], h) == Some(i)
    requires Attribute(c, TypeKey).Some? && NameHash(Attribute(c, TypeKey).value) == reg.descs[k].parents[i].parentHash
    ensures BaseClassNodeRead(reg, k, c, mem, base, offset, hooks) ==
            DeserializeDesc(reg, pk, c, mem, base, offset + reg.descs[k].parents[i].baseOffset, hooks)
  {
    BaseClassTargetFound(reg, k, i, pk, Attribute(c, TypeKey).value);
  }

  /** The type name of a node naming direct parent `i` leads to `i`. */
  lemma BaseClassTargetFound(reg: Registry, k: nat, i: nat, pk: nat, typeName: string)
    requires k < |reg.descs| && i < |reg.descs[k].parents| && pk < |reg.descs|
    requires var h := reg.descs[k].parents[i].parentHash;
             GetClassDesc(reg, h) == Some(pk) && reg.descs[pk].hash == h && FindParent(reg.descs[k], h) == Some(i)
    requires NameHash(typeName) == reg.descs[k].parents[i].parentHash
    ensures BaseClassTarget(reg, k, typeName) == Some((pk, i))
  {
  }

  /** A node of a descriptor without callbacks that carries a `Version` is
      read by reading its children. */
  lemma PlainDescRead(reg: Registry, k: nat, c: Node, mem: Memory, base: int, offset: int, hooks: Hooks)
    requires k < |reg.descs| && reg.descs[k].versioningFunc.None? && reg.descs[k].finalizeFunc.None?
    requires Attribute(c, VersionKey).Some?
    ensures DeserializeDesc(reg, k, c, mem, base, offset, hooks) == ReadAll(reg, k, c.children, mem, base, offset, hooks)
  {
    NodesReadAll(reg, k, c, 0, mem, base, offset, hooks);
    assert c.children[0..] == c.children;
  }

  /** The "BaseClass" node written for direct parent `i`: named
      "BaseClass", typed with the parent's name and carrying a version. */
  function BaseNode(d: Desc, cs: seq<Node>): (r: Node)
    ensures r.name == BaseClassNode && r.children == cs
    ensures Attribute(r, TypeKey) == Some(d.name) && Attribute(r, VersionKey).Some?
  {
    var desc := DescNode(BaseClassNode, d);
    assert Attribute(desc.(children := cs), TypeKey) == Attribute(desc, TypeKey);
    assert Attribute(desc.(children := cs), VersionKey) == Attribute(desc, VersionKey);
    desc.(children := cs)
  }

  /** A "BaseClass" node naming direct parent `i`, registered under its own
      name, listed once and without callbacks, reads back what reading its
      children as that parent at its `baseOffset` gives. */
  lemma BaseNodeRead(reg: Registry, k: nat, i: nat, pk: nat, cs: seq<Node>, cur: Memory, base: int, offset: int,
                     off: int, hooks: Hooks, r1: Memory)
    requires k < |reg.descs| && i < |reg.descs[k].parents| && pk < |reg.descs|
    requires var h := reg.descs[k].parents[i].parentHash;
             GetClassDesc(reg, h) == Some(pk) && reg.descs[pk].hash == h && NameHash(reg.descs[pk].name) == h &&
             FindParent(reg.descs[k], h) == Some(i)
    requires reg.descs[pk].versioningFunc.None? && reg.descs[pk].finalizeFunc.None?
    requires off == offset + reg.descs[k].parents[i].baseOffset
    requires ReadAll(reg, pk, cs, cur, base, off, hooks) == Ok(r1)
    ensures DeserializeChild(reg, k, BaseNode(reg.descs[pk], cs), cur, base, offset, hooks) == Ok(r1)
  {
    assert Fold(Prefix(BaseClassNode, |DataMemberNode|))[0] != Fold(Prefix(DataMemberNode, |DataMemberNode|))[0];
    ReadAllAt(reg, pk, cs, cur, base, off, offset + reg.descs[k].parents[i].baseOffset, hooks, r1);
    ParentBodyRead(reg, k, i, pk, cs, cur, base, offset, hooks, r1);
  }

  /** The same, for the node as `BaseClassNodeRead` takes it. */
  lemma ParentBodyRead(reg: Registry, k: nat, i: nat, pk: nat, cs: seq<Node>, cur: Memory, base: int, offset: int,
                       hooks: Hooks, r1: Memory)
    requires k < |reg.descs| && i < |reg.descs[k].parents| && pk < |reg.descs|
    requires var h := reg.descs[k].parents[i].parentHash;
             GetClassDesc(reg, h) == Some(pk) && reg.descs[pk].hash == h && NameHash(reg.descs[pk].name) == h &&
             FindParent(reg.descs[k], h) == Some(i)
    requires reg.descs[pk].versioningFunc.None? && reg.descs[pk].finalizeFunc.None?
    requires ReadAll(reg, pk, cs, cur, base, offset + reg.descs[k].parents[i].baseOffset, hooks) == Ok(r1)
    ensures BaseClassNodeRead(reg, k, BaseNode(reg.descs[pk], cs), cur, base, offset, hooks) == Ok(r1)
  {
    BaseNodeBody(reg, pk, cs, cur, base, offset + reg.descs[k].parents[i].baseOffset, hooks, r1);
  }

  /** Reading at `off` is reading at any offset equal to it. */
  lemma ReadAllAt(reg: Registry, k: nat, ns: seq<Node>, cur: Memory, base: int, off: int, off': int, hooks: Hooks,
                  r: Memory)
    requires k < |reg.descs| && off == off' && ReadAll(reg, k, ns, cur, base, off, hooks) == Ok(r)
    ensures ReadAll(reg, k, ns, cur, base, off', hooks) == Ok(r)
  {
  }

  /** A "BaseClass" node of a descriptor without callbacks reads what
      reading its children gives. */
  lemma BaseNodeBody(reg: Registry, pk: nat, cs: seq<Node>, cur: Memory, base: int, offset: int, hooks: Hooks,
                     r1: Memory)
    requires pk < |reg.descs| && reg.descs[pk].versioningFunc.None? && reg.descs[pk].finalizeFunc.None?
    requires ReadAll(reg, pk, cs, cur, base, offset, hooks) == Ok(r1)
    ensures DeserializeDesc(reg, pk, BaseNode(reg.descs[pk], cs), cur, base, offset, hooks) == Ok(r1)
  {
    PlainDescRead(reg, pk, BaseNode(reg.descs[pk], cs), cur, base, offset, hooks);
  }

  /** The parent list from `i` is parent `i`'s "BaseClass" node followed by
      the list from `i + 1`. */
  lemma ParentsCons(reg: Registry, k: nat, i: nat, pk: nat, mem: Memory, inst: int, base: int, offset: int,
                    off: int, codec: Codec, fuel: nat, cs: seq<Node>, rest: seq<Node>)
    requires k < |reg.descs| && i < |reg.descs[k].parents| && fuel > 0
    requires GetClassDesc(reg, reg.descs[k].parents[i].parentHash) == Some(pk)
    requires off == offset + reg.descs[k].parents[i].baseOffset
    requires SerializeMembers(reg, pk, mem, inst, base, off, codec, Corrected, fuel - 1) == Ok(cs)
    requires SerializeParents(reg, k, i + 1, mem, inst, base, offset, codec, Corrected, fuel) == Ok(rest)
    ensures SerializeParents(reg, k, i, mem, inst, base, offset, codec, Corrected, fuel) ==
            Ok([BaseNode(reg.descs[pk], cs)] + rest)
  {
  }

  /** Parent `i`'s node ahead of the rest of the parent list reads what
      reading the parent's children and then the rest gives. */
  lemma ParentNodesRead(reg: Registry, k: nat, i: nat, pk: nat, cs: seq<Node>, rest: seq<Node>, cur: Memory,
                        base: int, offset: int, off: int, hooks: Hooks, r1: Memory, r: Memory)
    requires k < |reg.descs| && i < |reg.descs[k].parents| && pk < |reg.descs|
    requires var h := reg.descs[k].parents[i].parentHash;
             GetClassDesc(reg, h) == Some(pk) && reg.descs[pk].hash == h && NameHash(reg.descs[pk].name) == h &&
             FindParent(reg.descs[k], h) == Some(i)
    requires reg.descs[pk].versioningFunc.None? && reg.descs[pk].finalizeFunc.None?
    requires off == offset + reg.descs[k].parents[i].baseOffset
    requires ReadAll(reg, pk, cs, cur, base, off, hooks) == Ok(r1)
    requires ReadAll(reg, k, rest, r1, base, offset, hooks) == Ok(r)
    ensures ReadAll(reg, k, [BaseNode(reg.descs[pk], cs)] + rest, cur, base, offset, hooks) == Ok(r)
  {
    BaseNodeRead(reg, k, i, pk, cs, cur, base, offset, off, hooks, r1);
    ReadAllCons(reg, k, BaseNode(reg.descs[pk], cs), rest, cur, base, offset, hooks, r1, r);
  }

  /** Parent `i` is written as a "BaseClass" node holding its part's
      nodes, in front of the later parents' nodes; reading that list reads
      the part's nodes at the parent's offset and then the rest. */
  lemma ParentStep(reg: Registry, k: nat, i: nat, pk: nat, mem: Memory, cur: Memory, inst: int, base: int,
                   offset: int, off: int, hooks: Hooks, fuel: nat, cs: seq<Node>, r1: Memory, rest: seq<Node>,
                   r: Memory)
    requires k < |reg.descs| && i < |reg.descs[k].parents| && fuel > 0 && pk < |reg.descs|
    requires ParentDesc(reg, k, i) == Some(pk)
    requires var h := reg.descs[k].parents[i].parentHash;
             GetClassDesc(reg, h) == Some(pk) && reg.descs[pk].hash == h && NameHash(reg.descs[pk].name) == h &&
             FindParent(reg.descs[k], h) == Some(i)
    requires reg.descs[pk].versioningFunc.None? && reg.descs[pk].finalizeFunc.None?
    requires off == offset + reg.descs[k].parents[i].baseOffset
    requires SerializeMembers(reg, pk, mem, inst, base, off, hooks.codec, Corrected, fuel - 1) == Ok(cs)
    requires ReadAll(reg, pk, cs, cur, base, off, hooks) == Ok(r1)
    requires SerializeParents(reg, k, i + 1, mem, inst, base, offset, hooks.codec, Corrected, fuel) == Ok(rest)
    requires ReadAll(reg, k, rest, r1, base, offset, hooks) == Ok(r)
    ensures SerializeParents(reg, k, i, mem, inst, base, offset, hooks.codec, Corrected, fuel) ==
            Ok([BaseNode(reg.descs[pk], cs)] + rest)
    ensures ReadAll(reg, k, [BaseNode(reg.descs[pk], cs)] + rest, cur, base, offset, hooks) == Ok(r)
  {
    ParentsCons(reg, k, i, pk, mem, inst, base, offset, off, hooks.codec, fuel, cs, rest);
    ParentNodesRead(reg, k, i, pk, cs, rest, cur, base, offset, off, hooks, r1, r);
  }

  /** The parents from `i` on are written as "BaseClass" nodes `ns`, which
      read back, over `cur`, onto their parts' cells, `cells`. */
  lemma {:induction false} ParentsRestore(reg: Registry, k: nat, i: nat, mem: Memory, cur: Memory, inst: int,
                                          base: int, offset: int, cells: set<int>, hooks: Hooks, fuel: nat)
    returns (ns: seq<Node>, r: Memory)
    requires k < |reg.descs| && i <= |reg.descs[k].parents| && RestorableObject(reg, k, mem, base + offset, fuel)
    requires cells == ParentCells(reg, k, i, base + offset, fuel)
    ensures SerializeParents(reg, k, i, mem, inst, base, offset, hooks.codec, Corrected, fuel) == Ok(ns)
    ensures ReadAll(reg, k, ns, cur, base, offset, hooks) == Ok(r)
    ensures r == Overlay(cur, mem, cells)
    decreases fuel, 0, |reg.descs[k].parents| - i
  {
    if i == |reg.descs[k].parents| {
      ns, r := [], cur;
      OverlayNone(cur, mem);
    } else {
      var off := offset + reg.descs[k].parents[i].baseOffset;
      var pk := ParentFacts(reg, k, i, mem, base, offset, off, fuel);
      var own, later := ParentCellsSplit(reg, k, i, pk, base + offset, base + off, fuel, cells);
      var cs, r1 := MembersRestore(reg, pk, mem, cur, inst, base, off, base + off, own, hooks, fuel - 1);
      var rest;
      rest, r := ParentsRestore(reg, k, i + 1, mem, r1, inst, base, offset, later, hooks, fuel);
      ParentStep(reg, k, i, pk, mem, cur, inst, base, offset, off, hooks, fuel, cs, r1, rest, r);
      OverlayAppend(cur, mem, own, later);
      ns := [BaseNode(reg.descs[pk], cs)] + rest;
    }
  }

  /** The parents' nodes followed by the own members' nodes read back onto
      the cells of both, `cells`. */
  lemma MembersJoin(reg: Registry, k: nat, mem: Memory, cur: Memory, inst: int, base: int, offset: int,
                    hooks: Hooks, fuel: nat, ps: seq<Node>, r1: Memory, ms: seq<Node>, r: Memory,
                    parts: set<int>, own: set<int>, cells: set<int>)
    requires k < |reg.descs| && cells == parts + own
    requires SerializeParents(reg, k, 0, mem, inst, base, offset, hooks.codec, Corrected, fuel) == Ok(ps)
    requires ReadAll(reg, k, ps, cur, base, offset, hooks) == Ok(r1) && r1 == Overlay(cur, mem, parts)
    requires SerializeMemberList(reg, k, 0, mem, inst, base, offset, hooks.codec, Corrected, fuel) == Ok(ms)
    requires ReadAll(reg, k, ms, r1, base, offset, hooks) == Ok(r) && r == Overlay(r1, mem, own)
    ensures SerializeMembers(reg, k, mem, inst, base, offset, hooks.codec, Corrected, fuel) == Ok(ps + ms)
    ensures ReadAll(reg, k, ps + ms, cur, base, offset, hooks) == Ok(r)
    ensures r == Overlay(cur, mem, cells)
  {
    ReadAllAppend(reg, k, ps, ms, cur, base, offset, hooks);
    OverlayAppend(cur, mem, parts, own);
  }

  /** A restorable part is written as its parents' nodes and then its
      members' nodes, `cs`, which read back, over `cur`, onto all of its
      cells, `cells`. */
  lemma {:induction false} MembersRestore(reg: Registry, k: nat, mem: Memory, cur: Memory, inst: int, base: int,
                                          offset: int, at: int, cells: set<int>, hooks: Hooks, fuel: nat)
    returns (cs: seq<Node>, r: Memory)
    requires at == base + offset
    requires k < |reg.descs| && RestorableObject(reg, k, mem, at, fuel)
    requires cells == ObjectCells(reg, k, at, fuel)
    ensures reg.descs[k].versioningFunc.None? && reg.descs[k].finalizeFunc.None?
    ensures SerializeMembers(reg, k, mem, inst, base, offset, hooks.codec, Corrected, fuel) == Ok(cs)
    ensures ReadAll(reg, k, cs, cur, base, offset, hooks) == Ok(r)
    ensures r == Overlay(cur, mem, cells)
    decreases fuel, 1
  {
    PartFacts(reg, k, mem, at);
    var parts, own := ObjectCellsSplit(reg, k, at, fuel, cells);
    var ps, r1 := ParentsRestore(reg, k, 0, mem, cur, inst, base, offset, parts, hooks, fuel);
    var ms;
    ms, r := MemberListRestores(reg, k, 0, mem, r1, inst, base, offset, hooks, fuel);
    MembersJoin(reg, k, mem, cur, inst, base, offset, hooks, fuel, ps, r1, ms, r, parts, own, cells);
    cs := ps + ms;
  }

  /** `Serialize` followed by `Deserialize`: the object is written, and
      reading what was written into any storage sets every cell the
      object's parts and members occupy to the value it had when written,
      leaving every other cell as it was. */
  lemma ObjectRoundTrip(reg: Registry, k: nat, mem: Memory, cur: Memory, inst: int, hooks: Hooks)
    requires k < |reg.descs| && RestorableObject(reg, k, mem, CastToBase(reg.descs[k], inst), Depth(reg))
    ensures Serialize(reg, k, mem, inst, hooks.codec).Ok?
    ensures var r := Deserialize(reg, k, Serialize(reg, k, mem, inst, hooks.codec).value, cur, inst, hooks);
            r.Ok? && Restored(r.value, cur, mem, ObjectCells(reg, k, CastToBase(reg.descs[k], inst), Depth(reg)))
  {
    var cs, r := ObjectRestores(reg, k, mem, cur, inst, hooks);
    ObjectWritten(reg, k, mem, inst, hooks.codec, cs);
    ClassNodeRead(reg, k, cs, cur, inst, hooks, r);
    OverlayRestores(cur, mem, ObjectCells(reg, k, CastToBase(reg.descs[k], inst), Depth(reg)));
  }

  /** `MembersRestore` for the whole object, whose part starts at the
      `ReflClass` pointer cast to the object's start. */
  lemma ObjectRestores(reg: Registry, k: nat, mem: Memory, cur: Memory, inst: int, hooks: Hooks)
    returns (cs: seq<Node>, r: Memory)
    requires k < |reg.descs| && RestorableObject(reg, k, mem, CastToBase(reg.descs[k], inst), Depth(reg))
    ensures reg.descs[k].versioningFunc.None? && reg.descs[k].finalizeFunc.None?
    ensures SerializeMembers(reg, k, mem, inst, CastToBase(reg.descs[k], inst), 0, hooks.codec, Corrected, Depth(reg))
            == Ok(cs)
    ensures ReadAll(reg, k, cs, cur, CastToBase(reg.descs[k], inst), 0, hooks) == Ok(r)
    ensures r == Overlay(cur, mem, ObjectCells(reg, k, CastToBase(reg.descs[k], inst), Depth(reg)))
  {
    cs, r := PartRestores(reg, k, mem, cur, inst, CastToBase(reg.descs[k], inst), hooks, Depth(reg));
  }

  /** `MembersRestore` at offset 0. */
  lemma PartRestores(reg: Registry, k: nat, mem: Memory, cur: Memory, inst: int, base: int, hooks: Hooks, fuel: nat)
    returns (cs: seq<Node>, r: Memory)
    requires k < |reg.descs| && RestorableObject(reg, k, mem, base, fuel)
    ensures reg.descs[k].versioningFunc.None? && reg.descs[k].finalizeFunc.None?
    ensures SerializeMembers(reg, k, mem, inst, base, 0, hooks.codec, Corrected, fuel) == Ok(cs)
    ensures ReadAll(reg, k, cs, cur, base, 0, hooks) == Ok(r)
    ensures r == Overlay(cur, mem, ObjectCells(reg, k, base, fuel))
  {
    cs, r := MembersRestore(reg, k, mem, cur, inst, base, 0, base, ObjectCells(reg, k, base, fuel), hooks, fuel);
  }

  /** `Serialize` writes the object's part nodes under a "Class" node. */
  lemma ObjectWritten(reg: Registry, k: nat, mem: Memory, inst: int, codec: Codec, cs: seq<Node>)
    requires k < |reg.descs|
    requires SerializeMembers(reg, k, mem, inst, CastToBase(reg.descs[k], inst), 0, codec, Corrected, Depth(reg))
             == Ok(cs)
    ensures Serialize(reg, k, mem, inst, codec) == Ok(DescNode(ClassNode, reg.descs[k]).(children := cs))
  {
  }

  /** `Deserialize` of the "Class" node holding a part's nodes `cs` reads as
      `cs` does at the object's start. */
  lemma ClassNodeRead(reg: Registry, k: nat, cs: seq<Node>, cur: Memory, inst: int, hooks: Hooks, r: Memory)
    requires k < |reg.descs| && reg.descs[k].versioningFunc.None? && reg.descs[k].finalizeFunc.None?
    requires ReadAll(reg, k, cs, cur, CastToBase(reg.descs[k], inst), 0, hooks) == Ok(r)
    ensures Deserialize(reg, k, DescNode(ClassNode, reg.descs[k]).(children := cs), cur, inst, hooks) == Ok(r)
  {
    var n := DescNode(ClassNode, reg.descs[k]).(children := cs);
    assert Attribute(n, VersionKey) == Attribute(DescNode(ClassNode, reg.descs[k]), VersionKey);
    PlainDescRead(reg, k, n, cur, CastToBase(reg.descs[k], inst), 0, hooks);
  }

  /** Reading an object's tree back into the object it was written from
      changes nothing. */
  lemma ReadBackUnchanged(reg: Registry, k: nat, mem: Memory, inst: int, hooks: Hooks)
    requires k < |reg.descs| && RestorableObject(reg, k, mem, CastToBase(reg.descs[k], inst), Depth(reg))
    ensures Serialize(reg, k, mem, inst, hooks.codec).Ok?
    ensures var r := Deserialize(reg, k, Serialize(reg, k, mem, inst, hooks.codec).value, mem, inst, hooks);
            r.Ok? && forall a :: CellAt(r.value, a) == CellAt(mem, a)
  {
    ObjectRoundTrip(reg, k, mem, mem, inst, hooks);
  }

  /** The node written for a restorable value is readable back into that
      value, whatever the storage it is read into held. */
  lemma MemberNodeReadable(reg: Registry, m: Member, c: Cell, current: Cell, garbage: int, codec: Codec)
    requires Restorable(reg, m, c)
    ensures ReadableNode(reg, m, WrittenNode(reg, m, c, codec), current, garbage, codec, c)
  {
    var typeName := WrittenType(reg, m, c);
    var text := WrittenText(reg, m, c, current, garbage, codec);
    NodeAttributes(m.name, typeName, text);
  }

  /** The type name a restorable value is written with is one
      `TypeMatches` accepts for the member. */
  lemma WrittenType(reg: Registry, m: Member, c: Cell) returns (typeName: string)
    requires Restorable(reg, m, c)
    ensures m.index != Class
    ensures MemberTypeName(reg, m) == Ok(typeName)
    ensures TypeMatches(m.index, NameHash(typeName), m.typeHash)
  {
    typeName := MemberTypeName(reg, m).value;
    if m.index != Enum {
      TypeHashIsNameHash(m.index);
    }
  }

  /** A restorable value of a member that is not a class has a type name
      and a text to be written with. */
  lemma WrittenParts(reg: Registry, m: Member, c: Cell, codec: Codec) returns (typeName: string, text: string)
    requires Restorable(reg, m, c)
    ensures m.index != Class
    ensures MemberTypeName(reg, m) == Ok(typeName) && MemberText(reg, m.index, m.typeHash, c, codec) == Ok(text)
    ensures DataText(reg, m, c, codec, Corrected) == Ok(text)
  {
    typeName := WrittenType(reg, m, c);
    text := WrittenText(reg, m, c, Int(0), 0, codec);
  }

  /** The text a restorable value is written with parses back to the
      value, whatever the storage held. */
  lemma WrittenText(reg: Registry, m: Member, c: Cell, current: Cell, garbage: int, codec: Codec)
      returns (text: string)
    requires Restorable(reg, m, c)
    ensures MemberText(reg, m.index, m.typeHash, c, codec) == Ok(text)
    ensures MemberParse(reg, m.index, m.typeHash, text, ValueLength, current, garbage, codec) == Ok(c)
  {
    MemberRoundTrip(reg, m.index, m.typeHash, c.v, ValueLength, current, garbage, codec);
    assert c == Int(c.v);
    text := MemberText(reg, m.index, m.typeHash, c, codec).value;
  }

  /** The attributes of a "DataMember" node as `Serialize` writes them. */
  lemma NodeAttributes(name: string, typeName: string, text: string)
    ensures var n := Node(DataMemberNode, [Attr(NameKey, name), Attr(TypeKey, typeName)], text, []);
            Named(n, DataMemberNode) && Attribute(n, NameKey) == Some(name) && Attribute(n, TypeKey) == Some(typeName)
  {
    var attrs := [Attr(NameKey, name), Attr(TypeKey, typeName)];
    assert NameKey[0] != TypeKey[0];
    assert AttributeBelow(attrs, NameKey, 1) == Some(name);
  }
}
