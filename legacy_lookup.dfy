/** The read-only lookups of the older engine: `ReflLibrary::GetClassDesc`,
    `ReflClassDesc::FindMember` (parents first, then own members, then the
    first member alias), `FindLocalMember`, `FindParent` (direct parents
    only), `NumMembers`, `ReflMember::DetermineType` and the two
    `GetEnumValue`s. Walks up the parent links take a fuel bound; running
    out of it stands for the unbounded recursion of a cyclic parent chain. */
module LegacyLookup {
  import opened Common
  import opened PrimitiveTable
  import opened ReflData
  import opened LegacyData
  import ReflLookup
  import ReflDeserialize

  /** Enough fuel for every acyclic parent chain of the library. */
  function Depth(lib: Library): nat
  {
    |lib.descs| + 1
  }

  // ---------------------------------------------------------------------
  // Descriptors

  /** The `while` over `s_descHead`: the first descriptor from position `i`
      on whose `NameMatches(h)` holds. */
  function DescIndexFrom(ds: seq<ClassDesc>, h: Hash, i: nat): (r: Option<nat>)
    requires i <= |ds|
    ensures r.Some? ==> i <= r.value < |ds| && LegacyData.NameMatches(ds[r.value], h)
    decreases |ds| - i
  {
    if i == |ds| then None
    else if LegacyData.NameMatches(ds[i], h) then Some(i)
    else DescIndexFrom(ds, h, i + 1)
  }

  /** `GetClassDesc`: the first descriptor with hash `h`; failing that, the
      first class alias whose old hash is `h`, resolved again through its new
      hash. Each hop uses up one alias; `hops` runs out only on an alias
      cycle, where the C++ recursion does not return. */
  function GetClassDescVia(lib: Library, h: Hash, hops: nat): (r: Option<nat>)
    ensures r.Some? ==> r.value < |lib.descs|
    decreases hops
  {
    match DescIndexFrom(lib.descs, h, 0)
    case Some(i) => Some(i)
    case None =>
      if hops == 0 then None
      else match ReflLookup.AliasIndex(lib.aliases, h)
        case None => None
        case Some(j) => GetClassDescVia(lib, lib.aliases[j].newHash, hops - 1)
  }

  function GetClassDesc(lib: Library, h: Hash): (r: Option<nat>)
    ensures r.Some? ==> r.value < |lib.descs|
  {
    GetClassDescVia(lib, h, |lib.aliases|)
  }

  // ---------------------------------------------------------------------
  // Members

  predicate ValidFound(lib: Library, f: ReflLookup.Found)
  {
    f.desc < |lib.descs| && f.member < |lib.descs[f.desc].members|
  }

  /** `FindLocalMember`: the first own member whose `Matches(h)` holds. */
  function FindLocalMember(d: ClassDesc, h: Hash): (r: Option<nat>)
    ensures r.Some? ==> r.value < |d.members| && d.members[r.value].nameHash == h
  {
    MemberIndexFrom(d.members, h, 0)
  }

  function MemberIndexFrom(ms: seq<LegacyMember>, h: Hash, i: nat): (r: Option<nat>)
    requires i <= |ms|
    ensures r.Some? ==> i <= r.value < |ms| && ms[r.value].nameHash == h
    decreases |ms| - i
  {
    if i == |ms| then None
    else if ms[i].nameHash == h then Some(i)
    else MemberIndexFrom(ms, h, i + 1)
  }

  /** The last two steps of `FindMember`: an own member of that name, or
      else the own member that the first member alias for the name points
      to; the alias loop stops at its first match even when that finds
      nothing. */
  function LocalOrAliased(d: ClassDesc, h: Hash): (r: Option<nat>)
    ensures r.Some? ==> r.value < |d.members|
  {
    match FindLocalMember(d, h)
    case Some(i) => Some(i)
    case None =>
      match ReflLookup.AliasIndex(d.memberAliases, h)
      case None => None
      case Some(a) => FindLocalMember(d, d.memberAliases[a].newHash)
  }

  /** `ReflClassDesc::FindMember(nameHash, &offset)`: the parents in list
      order, each through `GetClassDesc` (asserting it is there) and searched
      recursively, adding its offset when it has the member; then the
      descriptor's own members and aliases. */
  function FindMemberIn(lib: Library, k: nat, h: Hash, fuel: nat): (r: Result<Option<ReflLookup.Found>>)
    requires k < |lib.descs|
    ensures r.Ok? && r.value.Some? ==> ValidFound(lib, r.value.value)
    decreases fuel, 1
  {
    if fuel == 0 then Fatal(ReflLookup.ParentCycle)
    else
      match SearchParents(lib, k, h, 0, fuel - 1)
      case Fatal(reason) => Fatal(reason)
      case Ok(Some(f)) => Ok(Some(f))
      case Ok(None) =>
        match LocalOrAliased(lib.descs[k], h)
        case None => Ok(None)
        case Some(i) => Ok(Some(ReflLookup.Found(k, i, 0)))
  }

  /** The parents from position `i` on, as `FindMember`'s loop visits them. */
  function SearchParents(lib: Library, k: nat, h: Hash, i: nat, fuel: nat): (r: Result<Option<ReflLookup.Found>>)
    requires k < |lib.descs| && i <= |lib.descs[k].parents|
    ensures r.Ok? && r.value.Some? ==> ValidFound(lib, r.value.value)
    decreases fuel, 2, |lib.descs[k].parents| - i
  {
    if i == |lib.descs[k].parents| then Ok(None)
    else
      var p := lib.descs[k].parents[i];
      match GetClassDesc(lib, p.parentHash)
      case None => Fatal(ReflLookup.MissingParent)
      case Some(pk) =>
        match FindMemberIn(lib, pk, h, fuel)
        case Fatal(reason) => Fatal(reason)
        case Ok(Some(f)) => Ok(Some(f.(offset := f.offset + p.offset)))
        case Ok(None) => SearchParents(lib, k, h, i + 1, fuel)
  }

  function FindMember(lib: Library, k: nat, h: Hash): (r: Result<Option<ReflLookup.Found>>)
    requires k < |lib.descs|
    ensures r.Ok? && r.value.Some? ==> ValidFound(lib, r.value.value)
  {
    FindMemberIn(lib, k, h, Depth(lib))
  }

  // ---------------------------------------------------------------------
  // Parents and member counts

  /** `FindParent`: the first direct parent with that hash; ancestors
      further up are not searched. */
  function FindParent(d: ClassDesc, h: Hash): (r: Option<nat>)
    ensures r.Some? ==> r.value < |d.parents| && d.parents[r.value].parentHash == h
  {
    ParentIndexFrom(d.parents, h, 0)
  }

  function ParentIndexFrom(ps: seq<LegacyParent>, h: Hash, i: nat): (r: Option<nat>)
    requires i <= |ps|
    ensures r.Some? ==> i <= r.value < |ps| && ps[r.value].parentHash == h
    decreases |ps| - i
  {
    if i == |ps| then None
    else if ps[i].parentHash == h then Some(i)
    else ParentIndexFrom(ps, h, i + 1)
  }

  /** `NumMembers`: what every parent's `NumMembers` counts plus the own
      members; a parent descriptor that is not registered is dereferenced
      as NULL. */
  function NumMembersIn(lib: Library, k: nat, fuel: nat): (r: Result<nat>)
    requires k < |lib.descs|
    ensures r.Ok? ==> r.value >= |lib.descs[k].members|
    decreases fuel, 1
  {
    if fuel == 0 then Fatal(ReflLookup.ParentCycle)
    else
      match ParentMembers(lib, k, 0, fuel - 1)
      case Fatal(reason) => Fatal(reason)
      case Ok(n) => Ok(n + |lib.descs[k].members|)
  }

  function ParentMembers(lib: Library, k: nat, i: nat, fuel: nat): Result<nat>
    requires k < |lib.descs| && i <= |lib.descs[k].parents|
    decreases fuel, 2, |lib.descs[k].parents| - i
  {
    if i == |lib.descs[k].parents| then Ok(0)
    else
      match GetClassDesc(lib, lib.descs[k].parents[i].parentHash)
      case None => Fatal(ReflLookup.NullParent)
      case Some(pk) =>
        match NumMembersIn(lib, pk, fuel)
        case Fatal(reason) => Fatal(reason)
        case Ok(n) =>
          match ParentMembers(lib, k, i + 1, fuel)
          case Fatal(reason) => Fatal(reason)
          case Ok(rest) => Ok(n + rest)
  }

  function NumMembers(lib: Library, k: nat): Result<nat>
    requires k < |lib.descs|
  {
    NumMembersIn(lib, k, Depth(lib))
  }

  // ---------------------------------------------------------------------
  // Types and enum values

  /** `ReflMember::DetermineType`: the first table entry for an encoded
      type name; a name the table does not know asserts. */
  function DetermineType(typeHash: Hash): (r: Result<Kind>)
    ensures r.Ok? ==> TypeHash(r.value) == typeHash && r.value == KindOf(typeHash)
    ensures r.Fatal? ==> r.reason == ReflDeserialize.UnsupportedType && forall k: Kind :: TypeHash(k) != typeHash
  {
    DetermineTypeIndexNone(typeHash);
    match DetermineTypeIndex(typeHash)
    case None => Fatal(ReflDeserialize.UnsupportedType)
    case Some(k) => Ok(k)
  }

  /** `GetEnumValue(int)`: the first of the member's enum values equal to
      `v` once `v` is converted to `unsigned` for the comparison. */
  function EnumByValue(m: LegacyMember, v: int): (r: Option<nat>)
    ensures r.Some? ==> r.value < |m.enumValues| && m.enumValues[r.value].value == Wrap(UInt32, v)
  {
    ReflLookup.ValueIndexFrom(m.enumValues, Wrap(UInt32, v), 0)
  }

  /** `GetEnumValue(str, len)`: the first of the member's enum values whose
      name matches `s` within `len` characters, ignoring case. */
  function EnumByName(m: LegacyMember, s: string, len: nat): (r: Option<nat>)
    ensures r.Some? ==> r.value < |m.enumValues| && EqualIgnoringCaseWithin(s, m.enumValues[r.value].name, len)
  {
    ReflLookup.NameIndexFrom(m.enumValues, s, len, 0)
  }
}
