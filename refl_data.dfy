/** The records of the newer reflection engine, as values: a member, a parent
    link, an enum value, an alias, a type descriptor and the registry of all
    descriptors and class aliases. The linked lists of the C++ records are
    sequences here, head first. Callbacks (creation, finalization, manual
    versioning, member conversion) are identified by a number; what they do
    is given separately as `Hooks`. Addresses are integers, 0 being NULL. */
module ReflData {
  import opened Common
  import opened PrimitiveTable
  import opened Stream

  /** The hash every `ReflClass` carries until a descriptor stamps it. */
  const ReflClassType: Hash := NameHash("ReflClass")

  const NullAddress := 0

  /** Linked records of one descriptor. A `Parent` records where the parent
      sub-object sits in the derived object (`baseOffset`) and where the
      parent's `ReflClass` sits in the parent (`reflOffset`). */
  datatype Parent = Parent(baseOffset: nat, reflOffset: nat, parentHash: Hash)

  datatype EnumValue = EnumValue(value: int, name: string, nameHash: Hash)

  /** A member alias or a class alias: documents using `oldHash` mean `newHash`. */
  datatype Alias = Alias(oldHash: Hash, newHash: Hash)

  datatype Member = Member(
    name: string,
    nameHash: Hash,
    typeHash: Hash,
    index: Kind,
    size: nat,
    offset: nat,
    convFunc: Option<nat>,
    deprecated: bool,
    tempBinding: int)

  datatype Desc = Desc(
    name: string,
    hash: Hash,
    version: nat,
    size: nat,
    baseOffset: nat,
    reflOffset: nat,
    creationFunc: Option<nat>,
    finalizeFunc: Option<nat>,
    versioningFunc: Option<nat>,
    parents: seq<Parent>,
    members: seq<Member>,
    memberAliases: seq<Alias>,
    enumValues: seq<EnumValue>)

  /** `s_descHead` and `s_classAliasHead`, head first. */
  datatype Registry = Registry(descs: seq<Desc>, aliases: seq<Alias>)

  /** The storage of all instances: one cell per member address. */
  type Memory = map<int, Cell>

  /** A cell nobody wrote reads as zero. */
  function CellAt(mem: Memory, address: int): Cell
  {
    if address in mem then mem[address] else Int(0)
  }

  /** What the callbacks do. `versioning` sees the node the descriptor is
      being read from and leaves the cursor where it found it; `convert`
      receives the old member's decoded value. */
  datatype Hooks = Hooks(
    finalize: (nat, int, Memory) -> Memory,
    versioning: (nat, Hash, nat, Node, int, Memory) -> Memory,
    convert: (nat, int, Hash, Hash, Cell, Memory) -> Memory,
    create: (nat, nat) -> int,
    codec: Codec,
    garbage: int)

  // ---------------------------------------------------------------------
  // Registration records built by the macros

  /** The `ReflMember` constructor: the kind is the table entry of the
      declared type, or CLASS for a type the table does not know, and a known
      kind must have the table's size. */
  function NewMember(name: string, typeHash: Hash, size: nat, offset: nat): (r: Result<Member>)
    ensures r.Ok? <==> (DetermineTypeIndex(typeHash).None? || size == TypeSize(DetermineTypeIndex(typeHash).value))
    ensures r.Ok? ==> r.value.name == name && r.value.nameHash == NameHash(name)
                      && r.value.typeHash == typeHash && r.value.size == size && r.value.offset == offset
    ensures r.Ok? ==> !r.value.deprecated && r.value.convFunc.None? && r.value.tempBinding == NullAddress
    ensures r.Ok? ==> (r.value.index == Class || TypeHash(r.value.index) == typeHash)
    ensures r.Ok? && DetermineTypeIndex(typeHash).None? ==> r.value.index == Class
  {
    match DetermineTypeIndex(typeHash)
    case None => Ok(Member(name, NameHash(name), typeHash, Class, size, offset, None, false, NullAddress))
    case Some(k) =>
      if size == TypeSize(k) then Ok(Member(name, NameHash(name), typeHash, k, size, offset, None, false, NullAddress))
      else Fatal("Type sizze doesn't match")
  }

  /** `REFL_MEMBER_DEPRECATED`: offset 0, the declared type's size, then
      `MarkDeprecated`. */
  function DeprecatedMember(name: string, typeName: string, size: nat): (r: Result<Member>)
    ensures r.Ok? <==> NewMember(name, NameHash(typeName), size, 0).Ok?
    ensures r.Ok? ==> r.value.deprecated && r.value.offset == 0 && r.value.size == size
                      && r.value.nameHash == NameHash(name) && r.value.typeHash == NameHash(typeName)
  {
    match NewMember(name, NameHash(typeName), size, 0)
    case Fatal(reason) => Fatal(reason)
    case Ok(m) => Ok(m.(deprecated := true))
  }

  /** `REFL_ADD_MEMBER_ALIAS` and `REFL_ADD_DEPRECATED_CLASS`: the alias name
      is the old name and the current name the new one. */
  function AliasOf(currentName: string, aliasName: string): Alias
  {
    Alias(NameHash(aliasName), NameHash(currentName))
  }

  /** `REFL_ENUM_VALUE` and `REFL_ENUM_ALIAS`: an alias entry carries the value
      of the entry it stands for under its old display name. */
  function EnumEntry(value: int, identifier: string, displayName: string): EnumValue
  {
    EnumValue(value, displayName, NameHash(identifier))
  }

  /** The descriptor a `REFL_IMPL_CLASS_BEGIN` or `REFL_ENUM_IMPL_BEGIN`
      starts with: version 1, no callbacks, empty lists. */
  function NewDesc(name: string, size: nat, baseOffset: nat, reflOffset: nat, creationFunc: Option<nat>): Desc
  {
    Desc(name, NameHash(name), 1, size, baseOffset, reflOffset, creationFunc, None, None, [], [], [], [])
  }

  predicate IsEnumType(d: Desc)
  {
    |d.enumValues| > 0
  }

  predicate NameMatches(d: Desc, h: Hash)
  {
    d.hash == h
  }

  /** `CastToBase` and `CastToReflClass`: the two ends of the fixed shift
      between an object's start and its `ReflClass` sub-object. */
  function CastToBase(d: Desc, inst: int): int
  {
    inst - d.reflOffset - d.baseOffset
  }

  function CastToReflClass(d: Desc, base: int): int
  {
    base + d.reflOffset + d.baseOffset
  }

  lemma CastToBaseInverse(d: Desc, inst: int)
    ensures CastToReflClass(d, CastToBase(d, inst)) == inst
    ensures CastToBase(d, CastToReflClass(d, inst)) == inst
  {
  }

  /** `Create`: whatever the registered creation function returns; an enum
      descriptor has none, and calling through its NULL pointer crashes. */
  function Create(d: Desc, count: nat, hooks: Hooks): (r: Result<int>)
    ensures r.Ok? <==> d.creationFunc.Some?
    ensures r.Ok? ==> r.value == hooks.create(d.creationFunc.value, count)
  {
    if d.creationFunc.Some? then Ok(hooks.create(d.creationFunc.value, count))
    else Fatal(NullCall)
  }

  const NullCall := "call through a NULL function pointer"
}
