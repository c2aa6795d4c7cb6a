/** The records of the older reflection engine (`ReflClassDesc`,
    `ReflMember`, `ReflClassDesc::Parent`, `ReflMember::EnumValue`), as
    values. A parent link holds one offset; enum values belong to the member
    that declares them; there is no version, no casting and no deprecation.
    Lists are sequences, head first, as the registration code leaves them. */
module LegacyData {
  import opened Common
  import opened PrimitiveTable
  import opened ReflData
  import ReflFinalize

  /** `ReflClassDesc::Parent`: where the parent sub-object starts in the
      derived object, and the hash of the parent's name. */
  datatype LegacyParent = LegacyParent(offset: nat, parentHash: Hash)

  /** `ReflMember`. Enum values are stored `unsigned`. */
  datatype LegacyMember = LegacyMember(
    name: string,
    nameHash: Hash,
    typeHash: Hash,
    index: Kind,
    size: nat,
    offset: nat,
    enumValues: seq<EnumValue>,
    convFunc: Option<nat>)

  /** `ReflClassDesc`; the creation function is always given. */
  datatype ClassDesc = ClassDesc(
    name: string,
    hash: Hash,
    size: nat,
    creationFunc: nat,
    finalizeFunc: Option<nat>,
    parents: seq<LegacyParent>,
    members: seq<LegacyMember>,
    memberAliases: seq<Alias>)

  /** `s_descHead` and `s_classAliasHead`, head first. */
  datatype Library = Library(descs: seq<ClassDesc>, aliases: seq<Alias>)

  // ---------------------------------------------------------------------
  // Records built by the registration macros

  /** The kind the `ReflMember` constructor settles on: the first table
      entry whose type name hashes to the declared type, or CLASS for a
      type the table does not know. */
  function KindOf(typeHash: Hash): (k: Kind)
    ensures DetermineTypeIndex(typeHash).Some? ==> k == DetermineTypeIndex(typeHash).value
    ensures DetermineTypeIndex(typeHash).None? ==> k == Class
  {
    if DetermineTypeIndex(typeHash).Some? then DetermineTypeIndex(typeHash).value else Class
  }

  /** A kind other than CLASS is one whose table name is the declared type
      name, and no earlier table entry has that name. */
  lemma KindOfMatches(typeHash: Hash)
    ensures KindOf(typeHash) != Class ==> TypeHash(KindOf(typeHash)) == typeHash
    ensures KindOf(typeHash) == Class ==> typeHash == TypeHash(Class) || forall k: Kind :: TypeHash(k) != typeHash
  {
    DetermineTypeIndexNone(typeHash);
  }

  /** `REFL_MEMBER(parent, name, type)` and the `ReflMember` constructor:
      the name, the declared type name, size and offset; no enum values and
      no conversion function. The size is not checked against the table. */
  function ConstructMember(name: string, typeName: string, size: nat, offset: nat): (m: LegacyMember)
    ensures m.name == name && m.nameHash == NameHash(name) && m.typeHash == NameHash(typeName)
    ensures m.size == size && m.offset == offset && m.enumValues == [] && m.convFunc.None?
    ensures m.index == KindOf(NameHash(typeName))
  {
    LegacyMember(name, NameHash(name), NameHash(typeName), KindOf(NameHash(typeName)), size, offset, [], None)
  }

  /** The static descriptor `REFL_IMPL_CLASS_BEGIN` builds: no finalize
      callback and empty lists. */
  function ConstructDesc(name: string, size: nat, creationFunc: nat): (d: ClassDesc)
    ensures d.name == name && d.hash == NameHash(name) && d.size == size && d.creationFunc == creationFunc
    ensures d.finalizeFunc.None? && d.parents == [] && d.members == [] && d.memberAliases == []
  {
    ClassDesc(name, NameHash(name), size, creationFunc, None, [], [], [])
  }

  /** `REFL_ADD_PARENT(derived, parent)`: the parent's offset within the
      derived class and the hash of the parent's name. */
  function ParentLink(offset: nat, parentName: string): (p: LegacyParent)
    ensures p.offset == offset && p.parentHash == NameHash(parentName)
  {
    LegacyParent(offset, NameHash(parentName))
  }

  /** `REFL_ENUM_VALUE(enumName, value)` and `REFL_ENUM_ALIAS(enumName,
      value, oldValue)`: the value, converted to `unsigned`, under the name
      written (the enumerator, or the old name an alias keeps readable). */
  function LegacyEnumEntry(value: int, name: string): (e: EnumValue)
    ensures 0 <= e.value < 0x1_0000_0000 && e.value == Wrap(UInt32, value)
    ensures e.name == name && e.nameHash == NameHash(name)
  {
    EnumValue(Wrap(UInt32, value), name, NameHash(name))
  }

  /** `ReflClassDesc::NameMatches` compares with the hash `GetHash`
      returns. */
  predicate NameMatches(d: ClassDesc, h: Hash)
  {
    d.hash == h
  }

  /** `Create(count, memFlags)`: whatever the creation function returns. */
  function CreateInstance(d: ClassDesc, count: nat, hooks: Hooks): int
  {
    hooks.create(d.creationFunc, count)
  }

  // ---------------------------------------------------------------------
  // Registration order and Finalize

  /** The elements of `xs` registered one after the other onto the list
      `acc`, each becoming the new head. */
  function Prepended<T>(acc: seq<T>, xs: seq<T>): (r: seq<T>)
    ensures |r| == |acc| + |xs|
    decreases |xs|
  {
    if xs == [] then acc else Prepended([xs[0]] + acc, xs[1..])
  }

  /** Registering prepends, so the list ends up in reverse declaration
      order ahead of what was there before. */
  lemma {:induction false} PrependedIsReverse<T>(acc: seq<T>, xs: seq<T>)
    ensures Prepended(acc, xs) == Reverse(xs) + acc
    decreases |xs|
  {
    if xs != [] {
      PrependedIsReverse([xs[0]] + acc, xs[1..]);
      assert Reverse(xs) == Reverse(xs[1..]) + [xs[0]];
    }
  }

  /** `ReflMember::Finalize`: the enum values reversed. */
  function FinalizedMember(m: LegacyMember): LegacyMember
  {
    m.(enumValues := Reverse(m.enumValues))
  }

  /** `ReflClassDesc::Finalize`: the parents reversed, the members reversed
      with each member finalized. The member aliases keep the order they
      were registered in. */
  function Finalized(d: ClassDesc): (r: ClassDesc)
    ensures r.parents == Reverse(d.parents) && |r.members| == |d.members|
    ensures forall j :: 0 <= j < |d.members| ==> r.members[j] == FinalizedMember(d.members[|d.members| - 1 - j])
    ensures r.memberAliases == d.memberAliases
    ensures r.name == d.name && r.hash == d.hash && r.finalizeFunc == d.finalizeFunc
  {
    var ms := d.members;
    d.(parents := Reverse(d.parents),
       members := seq(|ms|, j requires 0 <= j < |ms| => FinalizedMember(ms[|ms| - 1 - j])))
  }

  /** The members as declared, each with its enum values registered in
      declaration order. */
  function WithRegisteredEnums(ms: seq<LegacyMember>): (r: seq<LegacyMember>)
    ensures |r| == |ms|
    ensures forall j :: 0 <= j < |ms| ==> r[j] == ms[j].(enumValues := Prepended([], ms[j].enumValues))
  {
    seq(|ms|, j requires 0 <= j < |ms| => ms[j].(enumValues := Prepended([], ms[j].enumValues)))
  }

  /** The static descriptor after the macros of a class declared as
      `decl` ran: every parent, member, enum value and member alias was
      prepended in declaration order. */
  function Registered(decl: ClassDesc): ClassDesc
  {
    decl.(parents := Prepended([], decl.parents),
          members := Prepended([], WithRegisteredEnums(decl.members)),
          memberAliases := Prepended([], decl.memberAliases))
  }

  /** After `Finalize` the parents, the members and each member's enum
      values are in declaration order again; the member aliases stay in
      reverse order, so the last declared alias for a name is found first. */
  lemma FinalizeRestoresDeclaration(decl: ClassDesc)
    ensures Finalized(Registered(decl)).parents == decl.parents
    ensures Finalized(Registered(decl)).members == decl.members
    ensures Finalized(Registered(decl)).memberAliases == Reverse(decl.memberAliases)
  {
    var reg := Registered(decl);
    var fin := Finalized(reg);
    PrependedIsReverse([], decl.parents);
    ReflFinalize.ReverseReverse(decl.parents);
    assert fin.parents == decl.parents;
    PrependedIsReverse([], decl.memberAliases);
    assert fin.memberAliases == Reverse(decl.memberAliases);
    MembersRestored(decl.members, reg.members, fin.members);
  }

  /** The member half: reversing the registered list and each member's
      enum values gives back the declared members. */
  lemma MembersRestored(decl: seq<LegacyMember>, reg: seq<LegacyMember>, fin: seq<LegacyMember>)
    requires reg == Prepended([], WithRegisteredEnums(decl))
    requires |fin| == |reg| && forall j :: 0 <= j < |reg| ==> fin[j] == FinalizedMember(reg[|reg| - 1 - j])
    ensures fin == decl
  {
    var ms := WithRegisteredEnums(decl);
    PrependedIsReverse([], ms);
    assert reg == Reverse(ms);
    forall j | 0 <= j < |decl|
      ensures fin[j] == decl[j]
    {
      assert reg[|reg| - 1 - j] == ms[j];
      PrependedIsReverse([], decl[j].enumValues);
      ReflFinalize.ReverseReverse(decl[j].enumValues);
    }
  }
}
