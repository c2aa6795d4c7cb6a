/** What `ReflTypeDesc::Finalize` and `ReflInitialize` compute, as functions
    of the registry: the lists registration prepended are reversed into
    declaration order, class members whose type is an enum descriptor become
    enum members, and the assertions are checked in the order the C++ code
    runs them; the first one to fail is the outcome. */
module ReflFinalize {
  import opened Common
  import opened PrimitiveTable
  import opened ReflData
  import opened ReflLookup

  const UnregisteredParent := "Unregistered parent descriptor"
  const UnregisteredClass := "Unregistered class type"
  const Misordered := "Members are misordered"
  const DuplicateMembers := "Duplicate members"
  const HashCollision := "Hash Collision"
  const ReflectsParentMember := "Derived class is reflecting parent member"
  const DuplicateClassNames := "Duplicate class names"
  const HashConflict := "Hash conflict"
  const AliasConflict := "Alias conflicts with existing class"
  const MissingAliasClass := "Missing class for alias"

  /** The length `StrCmp` compares names over. */
  const NameLength := 256

  // ---------------------------------------------------------------------
  // One descriptor

  predicate ParentsResolve(reg: Registry, ps: seq<Parent>)
  {
    forall i :: 0 <= i < |ps| ==> GetClassDesc(reg, ps[i].parentHash).Some?
  }

  /** `ReflMember::Finalize`: a member of a type the table does not know must
      name a registered descriptor, and becomes an enum member when that
      descriptor is an enum. Nothing else about the member changes. */
  function FinalizeMember(reg: Registry, m: Member): (r: Result<Member>)
    ensures r.Ok? <==> (m.index != Class || GetClassDesc(reg, m.typeHash).Some?)
    ensures r.Fatal? ==> r.reason == UnregisteredClass
    ensures r.Ok? ==> r.value.(index := m.index) == m
    ensures r.Ok? ==> (r.value.index != m.index <==>
                         m.index == Class && IsEnumType(reg.descs[GetClassDesc(reg, m.typeHash).value]))
    ensures r.Ok? && r.value.index != m.index ==> r.value.index == Enum
  {
    if m.index != Class then Ok(m)
    else match GetClassDesc(reg, m.typeHash)
      case None => Fatal(UnregisteredClass)
      case Some(k) => if IsEnumType(reg.descs[k]) then Ok(m.(index := Enum)) else Ok(m)
  }

  /** The member loop of `Finalize`, in list order. */
  function FinalizeMembers(reg: Registry, ms: seq<Member>): (r: Result<seq<Member>>)
    ensures r.Ok? <==> forall i :: 0 <= i < |ms| ==> FinalizeMember(reg, ms[i]).Ok?
    ensures r.Fatal? ==> r.reason == UnregisteredClass
    ensures r.Ok? ==> |r.value| == |ms| &&
                      forall i :: 0 <= i < |ms| ==> r.value[i] == FinalizeMember(reg, ms[i]).value
    decreases |ms|
  {
    if ms == [] then Ok([])
    else match FinalizeMember(reg, ms[0])
      case Fatal(e) => Fatal(e)
      case Ok(m) =>
        match FinalizeMembers(reg, ms[1..])
        case Fatal(e) => Fatal(e)
        case Ok(rest) => Ok([m] + rest)
  }

  /** The order check: each member lies after the one before it, unless it
      is deprecated. */
  predicate Ordered(ms: seq<Member>)
  {
    forall j :: 0 < j < |ms| ==> ms[j - 1].offset < ms[j].offset || ms[j].deprecated
  }

  /** No two members share a name (over the compared length) or a hash. */
  predicate DistinctMembers(ms: seq<Member>)
  {
    forall i, j :: 0 <= i < j < |ms| ==>
      !EqualWithin(ms[i].name, ms[j].name, NameLength) && ms[i].nameHash != ms[j].nameHash
  }

  /** No member name of descriptor `k` is found from any of its parents. */
  ghost predicate NoInheritedNames(reg: Registry, k: nat)
    requires k < |reg.descs|
  {
    forall l, q :: 0 <= l < |reg.descs[k].members| && 0 <= q < |reg.descs[k].parents| ==>
      ParentDesc(reg, k, q).Some? &&
      FindMember(reg, ParentDesc(reg, k, q).value, reg.descs[k].members[l].nameHash) == Ok(None)
  }

  /** Member `i` differs from every member from `j` on, by name and hash. */
  predicate UnlikeFrom(ms: seq<Member>, i: nat, j: nat)
    requires i < |ms|
  {
    forall l :: j <= l < |ms| ==> !EqualWithin(ms[i].name, ms[l].name, NameLength) && ms[i].nameHash != ms[l].nameHash
  }

  /** None of the parents of `k` from `q` on finds the name `h`. */
  ghost predicate NotInheritedFrom(reg: Registry, k: nat, h: Hash, q: nat)
    requires k < |reg.descs|
  {
    forall p :: q <= p < |reg.descs[k].parents| ==>
      ParentDesc(reg, k, p).Some? && FindMember(reg, ParentDesc(reg, k, p).value, h) == Ok(None)
  }

  /** Member `i` against the members from `j` on: names first, then hashes. */
  function DuplicatesFrom(ms: seq<Member>, i: nat, j: nat): (r: Result<()>)
    requires i < |ms| && j <= |ms|
    ensures r.Ok? <==> UnlikeFrom(ms, i, j)
    ensures r.Fatal? ==> r.reason == DuplicateMembers || r.reason == HashCollision
    decreases |ms| - j
  {
    if j == |ms| then Ok(())
    else if EqualWithin(ms[i].name, ms[j].name, NameLength) then Fatal(DuplicateMembers)
    else if ms[i].nameHash == ms[j].nameHash then Fatal(HashCollision)
    else DuplicatesFrom(ms, i, j + 1)
  }

  /** The parents of `k` from `q` on must not find the name `h`. */
  function InheritedFrom(reg: Registry, k: nat, h: Hash, q: nat): (r: Result<()>)
    requires k < |reg.descs| && q <= |reg.descs[k].parents|
    ensures r.Ok? <==> NotInheritedFrom(reg, k, h, q)
    decreases |reg.descs[k].parents| - q
  {
    if q == |reg.descs[k].parents| then Ok(())
    else match ParentDesc(reg, k, q)
      case None => Fatal(NullParent)
      case Some(pk) =>
        match FindMember(reg, pk, h)
        case Fatal(e) => Fatal(e)
        case Ok(Some(_)) => Fatal(ReflectsParentMember)
        case Ok(None) => InheritedFrom(reg, k, h, q + 1)
  }

  /** The uniqueness pass from member `i` on. */
  function UniqueFrom(reg: Registry, k: nat, i: nat): Result<()>
    requires k < |reg.descs| && i <= |reg.descs[k].members|
    decreases |reg.descs[k].members| - i
  {
    var ms := reg.descs[k].members;
    if i == |ms| then Ok(())
    else match DuplicatesFrom(ms, i, i + 1)
      case Fatal(e) => Fatal(e)
      case Ok(_) =>
        match InheritedFrom(reg, k, ms[i].nameHash, 0)
        case Fatal(e) => Fatal(e)
        case Ok(_) => UniqueFrom(reg, k, i + 1)
  }

  /** Member `l` of `k` passes both checks. */
  ghost predicate MemberUnique(reg: Registry, k: nat, l: nat)
    requires k < |reg.descs| && l < |reg.descs[k].members|
  {
    UnlikeFrom(reg.descs[k].members, l, l + 1) && NotInheritedFrom(reg, k, reg.descs[k].members[l].nameHash, 0)
  }

  ghost predicate UniqueAfter(reg: Registry, k: nat, i: nat)
    requires k < |reg.descs|
  {
    forall l :: i <= l < |reg.descs[k].members| ==> MemberUnique(reg, k, l)
  }

  lemma {:induction false} UniqueFromIff(reg: Registry, k: nat, i: nat)
    requires k < |reg.descs| && i <= |reg.descs[k].members|
    ensures UniqueFrom(reg, k, i).Ok? <==> UniqueAfter(reg, k, i)
    decreases |reg.descs[k].members| - i
  {
    if i < |reg.descs[k].members| {
      UniqueFromIff(reg, k, i + 1);
      UniqueAfterStep(reg, k, i);
    }
  }

  lemma UniqueAfterStep(reg: Registry, k: nat, i: nat)
    requires k < |reg.descs| && i < |reg.descs[k].members|
    ensures UniqueAfter(reg, k, i) <==> MemberUnique(reg, k, i) && UniqueAfter(reg, k, i + 1)
  {
    if MemberUnique(reg, k, i) && UniqueAfter(reg, k, i + 1) {
      forall l | i <= l < |reg.descs[k].members|
        ensures MemberUnique(reg, k, l)
      {
        if l > i {
          assert i + 1 <= l;
        }
      }
    }
  }

  lemma UniqueIff(reg: Registry, k: nat)
    requires k < |reg.descs|
    ensures UniqueFrom(reg, k, 0).Ok? <==> DistinctMembers(reg.descs[k].members) && NoInheritedNames(reg, k)
  {
    UniqueFromIff(reg, k, 0);
    if UniqueAfter(reg, k, 0) {
      UniqueAfterDistinct(reg, k);
      UniqueAfterNotInherited(reg, k);
    }
    if DistinctMembers(reg.descs[k].members) && NoInheritedNames(reg, k) {
      DistinctUniqueAfter(reg, k);
    }
  }

  lemma UniqueAfterDistinct(reg: Registry, k: nat)
    requires k < |reg.descs| && UniqueAfter(reg, k, 0)
    ensures DistinctMembers(reg.descs[k].members)
  {
    var ms := reg.descs[k].members;
    forall i, j | 0 <= i < j < |ms|
      ensures !EqualWithin(ms[i].name, ms[j].name, NameLength) && ms[i].nameHash != ms[j].nameHash
    {
      assert MemberUnique(reg, k, i);
      assert UnlikeFrom(ms, i, i + 1);
    }
  }

  lemma UniqueAfterNotInherited(reg: Registry, k: nat)
    requires k < |reg.descs| && UniqueAfter(reg, k, 0)
    ensures NoInheritedNames(reg, k)
  {
    forall l, q | 0 <= l < |reg.descs[k].members| && 0 <= q < |reg.descs[k].parents|
      ensures ParentDesc(reg, k, q).Some? &&
              FindMember(reg, ParentDesc(reg, k, q).value, reg.descs[k].members[l].nameHash) == Ok(None)
    {
      assert MemberUnique(reg, k, l);
    }
  }

  lemma DistinctUniqueAfter(reg: Registry, k: nat)
    requires k < |reg.descs|
    requires DistinctMembers(reg.descs[k].members) && NoInheritedNames(reg, k)
    ensures UniqueAfter(reg, k, 0)
  {
    var ms := reg.descs[k].members;
    forall l | 0 <= l < |ms|
      ensures MemberUnique(reg, k, l)
    {
      assert UnlikeFrom(ms, l, l + 1);
      assert NotInheritedFrom(reg, k, ms[l].nameHash, 0);
    }
  }

  /** The descriptor once its three lists are in declaration order: `ms` is
      the finalized member list, already reversed. */
  function Reordered(d: Desc, ms: seq<Member>): Desc
  {
    var ps := Reverse(d.parents);
    d.(parents := ps,
       baseOffset := if ps == [] then d.baseOffset else ps[0].baseOffset,
       reflOffset := if ps == [] then d.reflOffset else ps[0].reflOffset,
       members := ms,
       enumValues := Reverse(d.enumValues))
  }

  /** What `Finalize` leaves alone: names, version, size, callbacks and the
      member aliases, which are not reversed. */
  predicate SameHeader(a: Desc, b: Desc)
  {
    a.name == b.name && a.hash == b.hash && a.version == b.version && a.size == b.size &&
    a.creationFunc == b.creationFunc && a.finalizeFunc == b.finalizeFunc &&
    a.versioningFunc == b.versioningFunc && a.memberAliases == b.memberAliases
  }

  /** `ReflTypeDesc::Finalize` on descriptor `k`. The uniqueness pass sees
      the registry with `k` already reordered, as the C++ code does. */
  function FinalizeDesc(reg: Registry, k: nat): (r: Result<Desc>)
    requires k < |reg.descs|
    ensures r.Ok? ==> SameHeader(reg.descs[k], r.value)
  {
    var d := reg.descs[k];
    if !ParentsResolve(reg, d.parents) then Fatal(UnregisteredParent)
    else match FinalizeMembers(reg, d.members)
      case Fatal(e) => Fatal(e)
      case Ok(fs) =>
        var d2 := Reordered(d, Reverse(fs));
        if !Ordered(d2.members) then Fatal(Misordered)
        else match UniqueFrom(reg.(descs := reg.descs[k := d2]), k, 0)
          case Fatal(e) => Fatal(e)
          case Ok(_) => Ok(d2)
  }

  predicate AllFinalize(reg: Registry, ms: seq<Member>)
  {
    forall i :: 0 <= i < |ms| ==> FinalizeMember(reg, ms[i]).Ok?
  }

  /** `Finalize` succeeds exactly when the parents resolve, every member
      finalizes, and the reordered members are ordered, pairwise distinct
      and not reflected by a parent. */
  lemma FinalizeDescIff(reg: Registry, k: nat)
    requires k < |reg.descs|
    ensures FinalizeDesc(reg, k).Ok? <==>
              ParentsResolve(reg, reg.descs[k].parents) && AllFinalize(reg, reg.descs[k].members) &&
              var d2 := Reordered(reg.descs[k], Reverse(FinalizeMembers(reg, reg.descs[k].members).value));
              Ordered(d2.members) && DistinctMembers(d2.members) && NoInheritedNames(reg.(descs := reg.descs[k := d2]), k)
  {
    if FinalizeMembers(reg, reg.descs[k].members).Ok? {
      var d2 := Reordered(reg.descs[k], Reverse(FinalizeMembers(reg, reg.descs[k].members).value));
      UniqueIff(reg.(descs := reg.descs[k := d2]), k);
    }
  }

  /** The lists after `Finalize`: parents and enum values reversed, members
      finalized and reversed, and the offsets of the first parent taken. */
  lemma FinalizedLists(reg: Registry, k: nat)
    requires k < |reg.descs| && FinalizeDesc(reg, k).Ok?
    ensures var d := reg.descs[k]; var r := FinalizeDesc(reg, k).value;
            r.parents == Reverse(d.parents) && r.enumValues == Reverse(d.enumValues) &&
            (r.parents != [] ==> r.baseOffset == r.parents[0].baseOffset && r.reflOffset == r.parents[0].reflOffset) &&
            AllFinalize(reg, d.members) && |r.members| == |d.members| &&
            forall j :: 0 <= j < |r.members| ==> r.members[j] == FinalizeMember(reg, d.members[|d.members| - 1 - j]).value
  {
    FinalizeDescIff(reg, k);
  }

  lemma {:induction false} ReverseReverse<T>(s: seq<T>)
    ensures Reverse(Reverse(s)) == s
  {
    var r := Reverse(Reverse(s));
    assert |r| == |s|;
    forall i | 0 <= i < |s|
      ensures r[i] == s[i]
    {
      assert r[i] == Reverse(s)[|s| - 1 - i];
    }
  }

  /** Registration prepends each member, parent and enum value, so the list
      of a descriptor declared as `decl` is `Reverse(decl)`; after
      `Finalize` the lists follow the declaration. */
  lemma DeclarationOrder(reg: Registry, k: nat, decl: Desc)
    requires k < |reg.descs|
    requires reg.descs[k].parents == Reverse(decl.parents)
    requires reg.descs[k].members == Reverse(decl.members)
    requires reg.descs[k].enumValues == Reverse(decl.enumValues)
    requires FinalizeDesc(reg, k).Ok?
    ensures FinalizeDesc(reg, k).value.parents == decl.parents
    ensures FinalizeDesc(reg, k).value.enumValues == decl.enumValues
    ensures AllFinalize(reg, decl.members)
    ensures |FinalizeDesc(reg, k).value.members| == |decl.members|
    ensures forall j :: 0 <= j < |decl.members| ==>
              FinalizeDesc(reg, k).value.members[j] == FinalizeMember(reg, decl.members[j]).value
  {
    FinalizedLists(reg, k);
    ReverseReverse(decl.parents);
    ReverseReverse(decl.enumValues);
    var ms := reg.descs[k].members;
    forall j | 0 <= j < |decl.members|
      ensures FinalizeMember(reg, decl.members[j]).Ok?
      ensures FinalizeDesc(reg, k).value.members[j] == FinalizeMember(reg, decl.members[j]).value
    {
      assert ms[|ms| - 1 - j] == decl.members[j];
    }
  }

  /** After `Finalize` no member is still a class member of an enum type:
      every class member names a registered descriptor that is not an enum. */
  lemma FinalizedKinds(reg: Registry, k: nat, j: nat)
    requires k < |reg.descs| && FinalizeDesc(reg, k).Ok?
    requires j < |FinalizeDesc(reg, k).value.members|
    requires FinalizeDesc(reg, k).value.members[j].index == Class
    ensures var m := FinalizeDesc(reg, k).value.members[j];
            GetClassDesc(reg, m.typeHash).Some? && !IsEnumType(reg.descs[GetClassDesc(reg, m.typeHash).value])
  {
    FinalizedLists(reg, k);
    var d := reg.descs[k];
    assert FinalizeMember(reg, d.members[|d.members| - 1 - j]).Ok?;
  }

  /** Without deprecated members the order check means the offsets rise
      strictly along the whole list. */
  lemma {:induction false} OrderedStrictly(ms: seq<Member>, i: nat, j: nat)
    requires Ordered(ms) && forall l :: 0 <= l < |ms| ==> !ms[l].deprecated
    requires i < j < |ms|
    ensures ms[i].offset < ms[j].offset
    decreases j - i
  {
    if i + 1 < j {
      OrderedStrictly(ms, i, j - 1);
    }
  }

  // ---------------------------------------------------------------------
  // ReflInitialize

  /** Finalize the descriptors from `i` on, head first, each seeing the
      ones before it already finalized. */
  function FinalizeFrom(reg: Registry, i: nat): (r: Result<Registry>)
    requires i <= |reg.descs|
    ensures r.Ok? ==> |r.value.descs| == |reg.descs| && r.value.aliases == reg.aliases
    ensures r.Ok? ==> forall j :: 0 <= j < i ==> r.value.descs[j] == reg.descs[j]
    ensures r.Ok? ==> forall j :: 0 <= j < |reg.descs| ==> SameHeader(reg.descs[j], r.value.descs[j])
    decreases |reg.descs| - i
  {
    if i == |reg.descs| then Ok(reg)
    else match FinalizeDesc(reg, i)
      case Fatal(e) => Fatal(e)
      case Ok(d) => FinalizeFrom(reg.(descs := reg.descs[i := d]), i + 1)
  }

  /** Descriptor `i` differs from every descriptor from `j` on, by name and
      hash. */
  predicate ClassUnlikeFrom(reg: Registry, i: nat, j: nat)
    requires i < |reg.descs|
  {
    forall l :: j <= l < |reg.descs| ==>
      !EqualWithin(reg.descs[i].name, reg.descs[l].name, NameLength) && reg.descs[i].hash != reg.descs[l].hash
  }

  /** No class alias from `a` on has descriptor `i`'s hash as its old name. */
  predicate NoAliasFor(reg: Registry, i: nat, a: nat)
    requires i < |reg.descs|
  {
    forall l :: a <= l < |reg.aliases| ==> reg.aliases[l].oldHash != reg.descs[i].hash
  }

  /** Descriptor `i` against the descriptors from `j` on. */
  function ClassPairsFrom(reg: Registry, i: nat, j: nat): (r: Result<()>)
    requires i < |reg.descs| && j <= |reg.descs|
    ensures r.Ok? <==> ClassUnlikeFrom(reg, i, j)
    decreases |reg.descs| - j
  {
    if j == |reg.descs| then Ok(())
    else if EqualWithin(reg.descs[i].name, reg.descs[j].name, NameLength) then Fatal(DuplicateClassNames)
    else if reg.descs[i].hash == reg.descs[j].hash then Fatal(HashConflict)
    else ClassPairsFrom(reg, i, j + 1)
  }

  /** No class alias from `a` on renames descriptor `i`'s own hash. */
  function AliasConflictsFrom(reg: Registry, i: nat, a: nat): (r: Result<()>)
    requires i < |reg.descs| && a <= |reg.aliases|
    ensures r.Ok? <==> NoAliasFor(reg, i, a)
    decreases |reg.aliases| - a
  {
    if a == |reg.aliases| then Ok(())
    else if reg.aliases[a].oldHash == reg.descs[i].hash then Fatal(AliasConflict)
    else AliasConflictsFrom(reg, i, a + 1)
  }

  function ClassesFrom(reg: Registry, i: nat): Result<()>
    requires i <= |reg.descs|
    decreases |reg.descs| - i
  {
    if i == |reg.descs| then Ok(())
    else match ClassPairsFrom(reg, i, i + 1)
      case Fatal(e) => Fatal(e)
      case Ok(_) =>
        match AliasConflictsFrom(reg, i, 0)
        case Fatal(e) => Fatal(e)
        case Ok(_) => ClassesFrom(reg, i + 1)
  }

  function AliasTargetsFrom(reg: Registry, a: nat): (r: Result<()>)
    requires a <= |reg.aliases|
    ensures r.Ok? <==> forall l :: a <= l < |reg.aliases| ==> GetClassDesc(reg, reg.aliases[l].newHash).Some?
    decreases |reg.aliases| - a
  {
    if a == |reg.aliases| then Ok(())
    else if GetClassDesc(reg, reg.aliases[a].newHash).None? then Fatal(MissingAliasClass)
    else AliasTargetsFrom(reg, a + 1)
  }

  /** `ReflInitialize`: finalize every descriptor, then check the registry. */
  function Initialize(reg: Registry): Result<Registry>
  {
    match FinalizeFrom(reg, 0)
    case Fatal(e) => Fatal(e)
    case Ok(fin) =>
      match ClassesFrom(fin, 0)
      case Fatal(e) => Fatal(e)
      case Ok(_) =>
        match AliasTargetsFrom(fin, 0)
        case Fatal(e) => Fatal(e)
        case Ok(_) => Ok(fin)
  }

  /** Class names and hashes are pairwise distinct. */
  predicate UniqueClasses(reg: Registry)
  {
    forall i, j :: 0 <= i < j < |reg.descs| ==>
      !EqualWithin(reg.descs[i].name, reg.descs[j].name, NameLength) && reg.descs[i].hash != reg.descs[j].hash
  }

  /** No class alias renames a registered class. */
  predicate NoShadowingAlias(reg: Registry)
  {
    forall i, a :: 0 <= i < |reg.descs| && 0 <= a < |reg.aliases| ==> reg.aliases[a].oldHash != reg.descs[i].hash
  }

  predicate AliasesResolve(reg: Registry)
  {
    forall a :: 0 <= a < |reg.aliases| ==> GetClassDesc(reg, reg.aliases[a].newHash).Some?
  }

  /** Descriptor `l` passes both checks. */
  predicate ClassUnique(reg: Registry, l: nat)
    requires l < |reg.descs|
  {
    ClassUnlikeFrom(reg, l, l + 1) && NoAliasFor(reg, l, 0)
  }

  ghost predicate ClassesAfter(reg: Registry, i: nat)
  {
    forall l :: i <= l < |reg.descs| ==> ClassUnique(reg, l)
  }

  lemma {:induction false} ClassesFromIff(reg: Registry, i: nat)
    requires i <= |reg.descs|
    ensures ClassesFrom(reg, i).Ok? <==> ClassesAfter(reg, i)
    decreases |reg.descs| - i
  {
    if i < |reg.descs| {
      ClassesFromIff(reg, i + 1);
      ClassesAfterStep(reg, i);
    }
  }

  lemma ClassesAfterStep(reg: Registry, i: nat)
    requires i < |reg.descs|
    ensures ClassesAfter(reg, i) <==> ClassUnique(reg, i) && ClassesAfter(reg, i + 1)
  {
    if ClassUnique(reg, i) && ClassesAfter(reg, i + 1) {
      forall l | i <= l < |reg.descs|
        ensures ClassUnique(reg, l)
      {
        if l > i {
          assert i + 1 <= l;
        }
      }
    }
  }

  /** The check over all classes is the two registry-wide conditions. */
  lemma ClassesAfterIff(reg: Registry)
    ensures ClassesAfter(reg, 0) <==> UniqueClasses(reg) && NoShadowingAlias(reg)
  {
    if ClassesAfter(reg, 0) {
      forall i, j | 0 <= i < j < |reg.descs|
        ensures !EqualWithin(reg.descs[i].name, reg.descs[j].name, NameLength) && reg.descs[i].hash != reg.descs[j].hash
      {
        assert ClassUnique(reg, i);
      }
      forall i, a | 0 <= i < |reg.descs| && 0 <= a < |reg.aliases|
        ensures reg.aliases[a].oldHash != reg.descs[i].hash
      {
        assert ClassUnique(reg, i);
      }
    }
    if UniqueClasses(reg) && NoShadowingAlias(reg) {
      forall l | 0 <= l < |reg.descs|
        ensures ClassUnique(reg, l)
      {
      }
    }
  }

  /** Names, hashes and aliases are judged on the finalized registry, which
      has the same names and hashes as the registered one. */
  lemma SameClasses(reg: Registry, fin: Registry)
    requires |fin.descs| == |reg.descs| && fin.aliases == reg.aliases
    requires forall j :: 0 <= j < |reg.descs| ==> SameHeader(reg.descs[j], fin.descs[j])
    ensures ClassesAfter(fin, 0) <==> UniqueClasses(reg) && NoShadowingAlias(reg)
  {
    ClassesAfterIff(fin);
  }

  /** `ReflInitialize` succeeds exactly when every descriptor finalizes,
      the classes are distinct and every alias leads to a class. */
  lemma InitializeIff(reg: Registry)
    ensures Initialize(reg).Ok? <==>
              FinalizeFrom(reg, 0).Ok? && UniqueClasses(reg) && NoShadowingAlias(reg) &&
              AliasesResolve(FinalizeFrom(reg, 0).value)
  {
    if FinalizeFrom(reg, 0).Ok? {
      var fin := FinalizeFrom(reg, 0).value;
      ClassesFromIff(fin, 0);
      SameClasses(reg, fin);
    }
  }

  /** After `ReflInitialize`, every class is found under its own hash, and
      an alias whose new name is a class takes exactly one hop to it. */
  lemma InitializedLookups(reg: Registry)
    requires Initialize(reg).Ok?
    ensures var fin := Initialize(reg).value;
            forall i :: 0 <= i < |fin.descs| ==> GetClassDesc(fin, fin.descs[i].hash) == Some(i)
    ensures var fin := Initialize(reg).value;
            forall a :: 0 <= a < |fin.aliases| && AliasIndex(fin.aliases, fin.aliases[a].oldHash) == Some(a) &&
                        DescIndex(fin, fin.aliases[a].newHash).Some? ==>
              GetClassDesc(fin, fin.aliases[a].oldHash) == DescIndex(fin, fin.aliases[a].newHash)
  {
    InitializeIff(reg);
    var fin := Initialize(reg).value;
    ClassesFromIff(fin, 0);
    ClassesAfterIff(fin);
    forall i | 0 <= i < |fin.descs|
      ensures GetClassDesc(fin, fin.descs[i].hash) == Some(i)
    {
      FoundUnderOwnHash(fin, i);
    }
    forall a | 0 <= a < |fin.aliases| && AliasIndex(fin.aliases, fin.aliases[a].oldHash) == Some(a) &&
               DescIndex(fin, fin.aliases[a].newHash).Some?
      ensures GetClassDesc(fin, fin.aliases[a].oldHash) == DescIndex(fin, fin.aliases[a].newHash)
    {
      AliasTakesOneHop(fin, a);
    }
  }

  lemma FoundUnderOwnHash(reg: Registry, i: nat)
    requires UniqueClasses(reg) && i < |reg.descs|
    ensures GetClassDesc(reg, reg.descs[i].hash) == Some(i)
  {
    GetClassDescDirect(reg, i);
  }

  lemma AliasTakesOneHop(reg: Registry, a: nat)
    requires NoShadowingAlias(reg) && a < |reg.aliases|
    requires AliasIndex(reg.aliases, reg.aliases[a].oldHash) == Some(a)
    requires DescIndex(reg, reg.aliases[a].newHash).Some?
    ensures GetClassDesc(reg, reg.aliases[a].oldHash) == DescIndex(reg, reg.aliases[a].newHash)
  {
    AliasIndexFirst(reg.aliases, reg.aliases[a].oldHash);
    DescIndexFirst(reg, reg.aliases[a].newHash);
    GetClassDescAlias(reg, a, DescIndex(reg, reg.aliases[a].newHash).value);
  }
}
