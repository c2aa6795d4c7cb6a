/** The read-only lookups of the newer engine: descriptors by hash (with the
    class-alias fallback), members (parents first, then own members, then
    member aliases), parents and parent offsets, enum values and member
    counts. Walks up the parent links recurse through the registry; they take
    a fuel bound, and running out of it stands for the unbounded recursion a
    cyclic parent chain causes in the C++ code. */
module ReflLookup {
  import opened Common
  import opened PrimitiveTable
  import opened ReflData

  const ParentCycle := "cyclic parent chain"
  const MissingParent := "Missing parent descriptor"
  /** The message of a NULL descriptor dereferenced without a check. */
  const NullParent := "NULL parent descriptor dereferenced"

  /** Enough fuel for every acyclic parent chain of the registry. */
  function Depth(reg: Registry): nat
  {
    |reg.descs| + 1
  }

  // ---------------------------------------------------------------------
  // Descriptors

  function DescIndex(reg: Registry, h: Hash): (r: Option<nat>)
    ensures r.Some? ==> r.value < |reg.descs| && reg.descs[r.value].hash == h
  {
    DescIndexFrom(reg.descs, h, 0)
  }

  function DescIndexFrom(descs: seq<Desc>, h: Hash, i: nat): (r: Option<nat>)
    requires i <= |descs|
    ensures r.Some? ==> i <= r.value < |descs| && descs[r.value].hash == h
    decreases |descs| - i
  {
    if i == |descs| then None
    else if descs[i].hash == h then Some(i)
    else DescIndexFrom(descs, h, i + 1)
  }

  /** `DescIndexFrom` finds the first match from `i` on: every element before it,
      or every element at all when there is none, fails the test. */
  lemma {:induction false} DescIndexFromFirst(descs: seq<Desc>, h: Hash, i: nat)
    requires i <= |descs|
    ensures var r := DescIndexFrom(descs, h, i);
            r.Some? ==> forall j :: i <= j < r.value ==> descs[j].hash != h
    ensures DescIndexFrom(descs, h, i).None? ==> forall j :: i <= j < |descs| ==> descs[j].hash != h
    decreases |descs| - i
  {
    if i < |descs| && descs[i].hash != h {
      DescIndexFromFirst(descs, h, i + 1);
    }
  }

  lemma DescIndexFirst(reg: Registry, h: Hash)
    ensures var r := DescIndex(reg, h);
            r.Some? ==> forall j :: 0 <= j < r.value ==> reg.descs[j].hash != h
    ensures DescIndex(reg, h).None? ==> forall j :: 0 <= j < |reg.descs| ==> reg.descs[j].hash != h
  {
    DescIndexFromFirst(reg.descs, h, 0);
  }

  function AliasIndex(aliases: seq<Alias>, h: Hash): (r: Option<nat>)
    ensures r.Some? ==> r.value < |aliases| && aliases[r.value].oldHash == h
  {
    AliasIndexFrom(aliases, h, 0)
  }

  function AliasIndexFrom(aliases: seq<Alias>, h: Hash, i: nat): (r: Option<nat>)
    requires i <= |aliases|
    ensures r.Some? ==> i <= r.value < |aliases| && aliases[r.value].oldHash == h
    decreases |aliases| - i
  {
    if i == |aliases| then None
    else if aliases[i].oldHash == h then Some(i)
    else AliasIndexFrom(aliases, h, i + 1)
  }

  /** `AliasIndexFrom` finds the first match from `i` on: every element before it,
      or every element at all when there is none, fails the test. */
  lemma {:induction false} AliasIndexFromFirst(aliases: seq<Alias>, h: Hash, i: nat)
    requires i <= |aliases|
    ensures var r := AliasIndexFrom(aliases, h, i);
            r.Some? ==> forall j :: i <= j < r.value ==> aliases[j].oldHash != h
    ensures AliasIndexFrom(aliases, h, i).None? ==> forall j :: i <= j < |aliases| ==> aliases[j].oldHash != h
    decreases |aliases| - i
  {
    if i < |aliases| && aliases[i].oldHash != h {
      AliasIndexFromFirst(aliases, h, i + 1);
    }
  }

  lemma AliasIndexFirst(aliases: seq<Alias>, h: Hash)
    ensures var r := AliasIndex(aliases, h);
            r.Some? ==> forall j :: 0 <= j < r.value ==> aliases[j].oldHash != h
    ensures AliasIndex(aliases, h).None? ==> forall j :: 0 <= j < |aliases| ==> aliases[j].oldHash != h
  {
    AliasIndexFromFirst(aliases, h, 0);
  }

  /** `ReflLibrary::GetClassDesc`: the first descriptor with hash `h`;
      failing that, the first class alias whose old hash is `h`, resolved
      again through its new hash. Each hop uses up one alias, so `hops` =
      the number of aliases is cut short only on an alias cycle, where the
      C++ recursion does not return. */
  function GetClassDescVia(reg: Registry, h: Hash, hops: nat): (r: Option<nat>)
    ensures r.Some? ==> r.value < |reg.descs|
    decreases hops
  {
    match DescIndex(reg, h)
    case Some(i) => Some(i)
    case None =>
      if hops == 0 then None
      else match AliasIndex(reg.aliases, h)
        case None => None
        case Some(j) => GetClassDescVia(reg, reg.aliases[j].newHash, hops - 1)
  }

  function GetClassDesc(reg: Registry, h: Hash): (r: Option<nat>)
    ensures r.Some? ==> r.value < |reg.descs|
  {
    GetClassDescVia(reg, h, |reg.aliases|)
  }

  /** A registered hash finds its first descriptor, aliases aside. */
  lemma GetClassDescDirect(reg: Registry, i: nat)
    requires i < |reg.descs|
    ensures GetClassDesc(reg, reg.descs[i].hash).Some?
    ensures var j := GetClassDesc(reg, reg.descs[i].hash).value;
            j <= i && reg.descs[j].hash == reg.descs[i].hash
  {
    DescIndexFirst(reg, reg.descs[i].hash);
  }

  /** An alias gives exactly one hop: when no descriptor has the old name,
      the first alias for it leads to the descriptor of the new name. */
  lemma GetClassDescAlias(reg: Registry, a: nat, target: nat)
    requires a < |reg.aliases| && target < |reg.descs|
    requires forall j :: 0 <= j < |reg.descs| ==> reg.descs[j].hash != reg.aliases[a].oldHash
    requires forall j :: 0 <= j < a ==> reg.aliases[j].oldHash != reg.aliases[a].oldHash
    requires reg.descs[target].hash == reg.aliases[a].newHash
    requires forall j :: 0 <= j < target ==> reg.descs[j].hash != reg.aliases[a].newHash
    ensures GetClassDesc(reg, reg.aliases[a].oldHash) == Some(target)
  {
    var h := reg.aliases[a].oldHash;
    DescIndexFirst(reg, reg.aliases[a].newHash);
    AliasIndexFirst(reg.aliases, h);
    assert DescIndex(reg, h).None?;
    assert AliasIndex(reg.aliases, h) == Some(a);
    assert DescIndex(reg, reg.aliases[a].newHash) == Some(target);
    assert GetClassDescVia(reg, reg.aliases[a].newHash, |reg.aliases| - 1) == Some(target);
  }

  /** A hash that names no descriptor and no alias finds nothing. */
  lemma GetClassDescMiss(reg: Registry, h: Hash)
    requires forall j :: 0 <= j < |reg.descs| ==> reg.descs[j].hash != h
    requires forall j :: 0 <= j < |reg.aliases| ==> reg.aliases[j].oldHash != h
    ensures GetClassDesc(reg, h).None?
  {
    assert DescIndex(reg, h).None?;
  }

  /** A parent link leads to a descriptor. */
  function ParentDesc(reg: Registry, k: nat, i: nat): Option<nat>
    requires k < |reg.descs| && i < |reg.descs[k].parents|
  {
    GetClassDesc(reg, reg.descs[k].parents[i].parentHash)
  }

  /** Every parent link reachable from `k` resolves, and no chain of parent
      links from `k` is `fuel` long. */
  ghost predicate Grounded(reg: Registry, k: nat, fuel: nat)
    requires k < |reg.descs|
    decreases fuel
  {
    fuel > 0 &&
    forall i :: 0 <= i < |reg.descs[k].parents| ==>
      ParentDesc(reg, k, i).Some? && Grounded(reg, ParentDesc(reg, k, i).value, fuel - 1)
  }

  // ---------------------------------------------------------------------
  // Members

  /** A member found for a name: the descriptor that holds it, its position
      there, and the offset of that descriptor's object within the object
      searched from. */
  datatype Found = Found(desc: nat, member: nat, offset: nat)

  predicate ValidFound(reg: Registry, f: Found)
  {
    f.desc < |reg.descs| && f.member < |reg.descs[f.desc].members|
  }

  function FoundMember(reg: Registry, f: Found): Member
    requires ValidFound(reg, f)
  {
    reg.descs[f.desc].members[f.member]
  }

  /** `FindLocalMember`: the first own member with that name hash. */
  function FindLocalMember(d: Desc, h: Hash): (r: Option<nat>)
    ensures r.Some? ==> r.value < |d.members| && d.members[r.value].nameHash == h
  {
    MemberIndexFrom(d.members, h, 0)
  }

  function MemberIndexFrom(ms: seq<Member>, h: Hash, i: nat): (r: Option<nat>)
    requires i <= |ms|
    ensures r.Some? ==> i <= r.value < |ms| && ms[r.value].nameHash == h
    decreases |ms| - i
  {
    if i == |ms| then None
    else if ms[i].nameHash == h then Some(i)
    else MemberIndexFrom(ms, h, i + 1)
  }

  /** `MemberIndexFrom` finds the first match from `i` on: every element before it,
      or every element at all when there is none, fails the test. */
  lemma {:induction false} MemberIndexFromFirst(ms: seq<Member>, h: Hash, i: nat)
    requires i <= |ms|
    ensures var r := MemberIndexFrom(ms, h, i);
            r.Some? ==> forall j :: i <= j < r.value ==> ms[j].nameHash != h
    ensures MemberIndexFrom(ms, h, i).None? ==> forall j :: i <= j < |ms| ==> ms[j].nameHash != h
    decreases |ms| - i
  {
    if i < |ms| && ms[i].nameHash != h {
      MemberIndexFromFirst(ms, h, i + 1);
    }
  }

  lemma FindLocalMemberFirst(d: Desc, h: Hash)
    ensures var r := FindLocalMember(d, h);
            r.Some? ==> forall j :: 0 <= j < r.value ==> d.members[j].nameHash != h
    ensures FindLocalMember(d, h).None? ==> forall j :: 0 <= j < |d.members| ==> d.members[j].nameHash != h
  {
    MemberIndexFromFirst(d.members, h, 0);
  }

  /** The member a name means in `d` itself: an own member of that name, or
      else the own member the first alias for that name points to. */
  function OwnMember(d: Desc, h: Hash): (r: Option<nat>)
    ensures r.Some? ==> r.value < |d.members|
    ensures FindLocalMember(d, h).Some? ==> r == FindLocalMember(d, h)
    ensures FindLocalMember(d, h).None? && AliasIndex(d.memberAliases, h).None? ==> r.None?
    ensures FindLocalMember(d, h).None? && AliasIndex(d.memberAliases, h).Some? ==>
              r == FindLocalMember(d, d.memberAliases[AliasIndex(d.memberAliases, h).value].newHash)
  {
    match FindLocalMember(d, h)
    case Some(i) => Some(i)
    case None =>
      match AliasIndex(d.memberAliases, h)
      case None => None
      case Some(a) => FindLocalMember(d, d.memberAliases[a].newHash)
  }

  /** `ReflTypeDesc::FindMember`: the parents in list order first, each
      searched recursively and adding its `baseOffset` when it has the
      member; only then `d`'s own members and its first matching alias. */
  function FindMemberIn(reg: Registry, k: nat, h: Hash, fuel: nat): (r: Result<Option<Found>>)
    requires k < |reg.descs|
    ensures r.Ok? && r.value.Some? ==> ValidFound(reg, r.value.value)
    ensures r.Ok? && r.value.Some? && r.value.value.desc == k ==> r.value.value.offset == 0 || |reg.descs[k].parents| > 0
    decreases fuel, 1
  {
    if fuel == 0 then Fatal(ParentCycle)
    else
      match SearchParents(reg, k, h, 0, fuel - 1)
      case Fatal(reason) => Fatal(reason)
      case Ok(Some(f)) => Ok(Some(f))
      case Ok(None) =>
        match OwnMember(reg.descs[k], h)
        case None => Ok(None)
        case Some(i) => Ok(Some(Found(k, i, 0)))
  }

  /** The parents from position `i` on, as `FindMember`'s loop visits them. */
  function SearchParents(reg: Registry, k: nat, h: Hash, i: nat, fuel: nat): (r: Result<Option<Found>>)
    requires k < |reg.descs| && i <= |reg.descs[k].parents|
    ensures r.Ok? && r.value.Some? ==> ValidFound(reg, r.value.value)
    ensures i == |reg.descs[k].parents| ==> r == Ok(None)
    decreases fuel, 2, |reg.descs[k].parents| - i
  {
    if i == |reg.descs[k].parents| then Ok(None)
    else
      var p := reg.descs[k].parents[i];
      match GetClassDesc(reg, p.parentHash)
      case None => Fatal(MissingParent)
      case Some(pk) =>
        match FindMemberIn(reg, pk, h, fuel)
        case Fatal(reason) => Fatal(reason)
        case Ok(Some(f)) => Ok(Some(f.(offset := f.offset + p.baseOffset)))
        case Ok(None) => SearchParents(reg, k, h, i + 1, fuel)
  }

  function FindMember(reg: Registry, k: nat, h: Hash): (r: Result<Option<Found>>)
    requires k < |reg.descs|
    ensures r.Ok? && r.value.Some? ==> ValidFound(reg, r.value.value)
  {
    FindMemberIn(reg, k, h, Depth(reg))
  }

  // ---------------------------------------------------------------------
  // Parents

  /** `FindParent`: the first direct parent with that hash. */
  function FindParent(d: Desc, h: Hash): (r: Option<nat>)
    ensures r.Some? ==> r.value < |d.parents| && d.parents[r.value].parentHash == h
  {
    ParentIndexFrom(d.parents, h, 0)
  }

  function ParentIndexFrom(ps: seq<Parent>, h: Hash, i: nat): (r: Option<nat>)
    requires i <= |ps|
    ensures r.Some? ==> i <= r.value < |ps| && ps[r.value].parentHash == h
    decreases |ps| - i
  {
    if i == |ps| then None
    else if ps[i].parentHash == h then Some(i)
    else ParentIndexFrom(ps, h, i + 1)
  }

  /** `ParentIndexFrom` finds the first match from `i` on: every element before it,
      or every element at all when there is none, fails the test. */
  lemma {:induction false} ParentIndexFromFirst(ps: seq<Parent>, h: Hash, i: nat)
    requires i <= |ps|
    ensures var r := ParentIndexFrom(ps, h, i);
            r.Some? ==> forall j :: i <= j < r.value ==> ps[j].parentHash != h
    ensures ParentIndexFrom(ps, h, i).None? ==> forall j :: i <= j < |ps| ==> ps[j].parentHash != h
    decreases |ps| - i
  {
    if i < |ps| && ps[i].parentHash != h {
      ParentIndexFromFirst(ps, h, i + 1);
    }
  }

  lemma FindParentFirst(d: Desc, h: Hash)
    ensures var r := FindParent(d, h);
            r.Some? ==> forall j :: 0 <= j < r.value ==> d.parents[j].parentHash != h
    ensures FindParent(d, h).None? ==> forall j :: 0 <= j < |d.parents| ==> d.parents[j].parentHash != h
  {
    ParentIndexFromFirst(d.parents, h, 0);
  }

  /** The two offsets `FindParentOffset` reports: the ancestor's sub-object
      within the object, and the ancestor's `ReflClass` within the ancestor. */
  datatype Offsets = Offsets(base: nat, refl: nat)

  /** `FindParentOffset`: a direct parent gives its own offsets; otherwise
      the first parent whose ancestry has the target adds its offsets to the
      offsets found there. The parent descriptor is not checked for NULL. */
  function ParentOffsetIn(reg: Registry, k: nat, h: Hash, fuel: nat): (r: Result<Option<Offsets>>)
    requires k < |reg.descs|
    ensures FindParent(reg.descs[k], h).Some? ==>
              var p := reg.descs[k].parents[FindParent(reg.descs[k], h).value];
              r == Ok(Some(Offsets(p.baseOffset, p.reflOffset))) || fuel == 0
    decreases fuel, 1
  {
    if fuel == 0 then Fatal(ParentCycle)
    else
      match FindParent(reg.descs[k], h)
      case Some(i) =>
        var p := reg.descs[k].parents[i];
        Ok(Some(Offsets(p.baseOffset, p.reflOffset)))
      case None => SearchParentOffsets(reg, k, h, 0, fuel - 1)
  }

  function SearchParentOffsets(reg: Registry, k: nat, h: Hash, i: nat, fuel: nat): (r: Result<Option<Offsets>>)
    requires k < |reg.descs| && i <= |reg.descs[k].parents|
    decreases fuel, 2, |reg.descs[k].parents| - i
  {
    if i == |reg.descs[k].parents| then Ok(None)
    else
      var p := reg.descs[k].parents[i];
      match GetClassDesc(reg, p.parentHash)
      case None => Fatal(NullParent)
      case Some(pk) =>
        match ParentOffsetIn(reg, pk, h, fuel)
        case Fatal(reason) => Fatal(reason)
        case Ok(Some(o)) => Ok(Some(Offsets(o.base + p.baseOffset, o.refl + p.reflOffset)))
        case Ok(None) => SearchParentOffsets(reg, k, h, i + 1, fuel)
  }

  function FindParentOffset(reg: Registry, k: nat, h: Hash): Result<Option<Offsets>>
    requires k < |reg.descs|
  {
    ParentOffsetIn(reg, k, h, Depth(reg))
  }

  // ---------------------------------------------------------------------
  // Enum values and member counts

  /** `GetEnumValue(int64)`: the first entry with that value. */
  function EnumByValue(d: Desc, v: int): (r: Option<nat>)
    ensures r.Some? ==> r.value < |d.enumValues| && d.enumValues[r.value].value == v
  {
    ValueIndexFrom(d.enumValues, v, 0)
  }

  function ValueIndexFrom(es: seq<EnumValue>, v: int, i: nat): (r: Option<nat>)
    requires i <= |es|
    ensures r.Some? ==> i <= r.value < |es| && es[r.value].value == v
    decreases |es| - i
  {
    if i == |es| then None
    else if es[i].value == v then Some(i)
    else ValueIndexFrom(es, v, i + 1)
  }

  /** `ValueIndexFrom` finds the first match from `i` on: every element before it,
      or every element at all when there is none, fails the test. */
  lemma {:induction false} ValueIndexFromFirst(es: seq<EnumValue>, v: int, i: nat)
    requires i <= |es|
    ensures var r := ValueIndexFrom(es, v, i);
            r.Some? ==> forall j :: i <= j < r.value ==> es[j].value != v
    ensures ValueIndexFrom(es, v, i).None? ==> forall j :: i <= j < |es| ==> es[j].value != v
    decreases |es| - i
  {
    if i < |es| && es[i].value != v {
      ValueIndexFromFirst(es, v, i + 1);
    }
  }

  lemma EnumByValueFirst(d: Desc, v: int)
    ensures var r := EnumByValue(d, v);
            r.Some? ==> forall j :: 0 <= j < r.value ==> d.enumValues[j].value != v
    ensures EnumByValue(d, v).None? ==> forall j :: 0 <= j < |d.enumValues| ==> d.enumValues[j].value != v
  {
    ValueIndexFromFirst(d.enumValues, v, 0);
  }

  /** `GetEnumValue(str, len)`: the first entry whose display name equals
      `s` in its first `len` characters, ignoring case. */
  function EnumByName(d: Desc, s: string, len: nat): (r: Option<nat>)
    ensures r.Some? ==> r.value < |d.enumValues| && EqualIgnoringCaseWithin(s, d.enumValues[r.value].name, len)
  {
    NameIndexFrom(d.enumValues, s, len, 0)
  }

  function NameIndexFrom(es: seq<EnumValue>, s: string, len: nat, i: nat): (r: Option<nat>)
    requires i <= |es|
    ensures r.Some? ==> i <= r.value < |es| && EqualIgnoringCaseWithin(s, es[r.value].name, len)
    decreases |es| - i
  {
    if i == |es| then None
    else if EqualIgnoringCaseWithin(s, es[i].name, len) then Some(i)
    else NameIndexFrom(es, s, len, i + 1)
  }

  /** `NameIndexFrom` finds the first match from `i` on: every element before it,
      or every element at all when there is none, fails the test. */
  lemma {:induction false} NameIndexFromFirst(es: seq<EnumValue>, s: string, len: nat, i: nat)
    requires i <= |es|
    ensures var r := NameIndexFrom(es, s, len, i);
            r.Some? ==> forall j :: i <= j < r.value ==> !EqualIgnoringCaseWithin(s, es[j].name, len)
    ensures NameIndexFrom(es, s, len, i).None? ==> forall j :: i <= j < |es| ==> !EqualIgnoringCaseWithin(s, es[j].name, len)
    decreases |es| - i
  {
    if i < |es| && !EqualIgnoringCaseWithin(s, es[i].name, len) {
      NameIndexFromFirst(es, s, len, i + 1);
    }
  }

  lemma EnumByNameFirst(d: Desc, s: string, len: nat)
    ensures var r := EnumByName(d, s, len);
            r.Some? ==> forall j :: 0 <= j < r.value ==> !EqualIgnoringCaseWithin(s, d.enumValues[j].name, len)
    ensures EnumByName(d, s, len).None? ==> forall j :: 0 <= j < |d.enumValues| ==> !EqualIgnoringCaseWithin(s, d.enumValues[j].name, len)
  {
    NameIndexFromFirst(d.enumValues, s, len, 0);
  }

  /** `NumMembers`: the members of every parent (recursively) plus the own
      members; parent descriptors are not checked for NULL. */
  function NumMembersIn(reg: Registry, k: nat, fuel: nat): (r: Result<nat>)
    requires k < |reg.descs|
    ensures r.Ok? ==> r.value >= |reg.descs[k].members|
    decreases fuel, 1
  {
    if fuel == 0 then Fatal(ParentCycle)
    else
      match ParentMembers(reg, k, 0, fuel - 1)
      case Fatal(reason) => Fatal(reason)
      case Ok(n) => Ok(n + |reg.descs[k].members|)
  }

  function ParentMembers(reg: Registry, k: nat, i: nat, fuel: nat): Result<nat>
    requires k < |reg.descs| && i <= |reg.descs[k].parents|
    decreases fuel, 2, |reg.descs[k].parents| - i
  {
    if i == |reg.descs[k].parents| then Ok(0)
    else
      match GetClassDesc(reg, reg.descs[k].parents[i].parentHash)
      case None => Fatal(NullParent)
      case Some(pk) =>
        match NumMembersIn(reg, pk, fuel)
        case Fatal(reason) => Fatal(reason)
        case Ok(n) =>
          match ParentMembers(reg, k, i + 1, fuel)
          case Fatal(reason) => Fatal(reason)
          case Ok(rest) => Ok(n + rest)
  }

  function NumMembers(reg: Registry, k: nat): Result<nat>
    requires k < |reg.descs|
  {
    NumMembersIn(reg, k, Depth(reg))
  }
}
