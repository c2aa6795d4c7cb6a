/** Temporary bindings: a deprecated member has no storage of its own, so a
    caller binds it to a scratch address before loading a document and clears
    the binding afterwards. `RegisterTempBinding` and `ClearTempBinding` look
    the member up with `FindMember`, which also reaches the members of
    parents; `ClearAllTempBindings` clears only the descriptor's own members. */
module ReflBindings {
  import opened Common
  import PrimitiveTable
  import opened ReflData
  import opened ReflLookup

  /** Every member with its binding cleared. */
  function Unbound(ms: seq<Member>): (r: seq<Member>)
    ensures |r| == |ms|
    ensures forall i :: 0 <= i < |ms| ==> r[i] == ms[i].(tempBinding := NullAddress)
  {
    if ms == [] then [] else [ms[0].(tempBinding := NullAddress)] + Unbound(ms[1..])
  }

  /** A descriptor with its bindings set aside: everything a lookup reads. */
  function Shape(d: Desc): Desc
  {
    d.(members := Unbound(d.members))
  }

  /** Two registries that differ at most in member bindings. */
  predicate SameShape(a: Registry, b: Registry)
  {
    a.aliases == b.aliases && |a.descs| == |b.descs| &&
    forall i :: 0 <= i < |a.descs| ==> Shape(a.descs[i]) == Shape(b.descs[i])
  }

  lemma ShapeFacts(a: Desc, b: Desc)
    requires Shape(a) == Shape(b)
    ensures a.hash == b.hash && a.parents == b.parents && a.memberAliases == b.memberAliases
    ensures |a.members| == |b.members|
    ensures forall i :: 0 <= i < |a.members| ==> a.members[i].nameHash == b.members[i].nameHash
  {
    assert |Unbound(a.members)| == |Unbound(b.members)|;
    forall i | 0 <= i < |a.members|
      ensures a.members[i].nameHash == b.members[i].nameHash
    {
      assert Unbound(a.members)[i] == Unbound(b.members)[i];
    }
  }

  lemma {:induction false} DescIndexFromShape(a: Registry, b: Registry, h: Hash, i: nat)
    requires SameShape(a, b) && i <= |a.descs|
    ensures DescIndexFrom(a.descs, h, i) == DescIndexFrom(b.descs, h, i)
    decreases |a.descs| - i
  {
    if i < |a.descs| {
      ShapeFacts(a.descs[i], b.descs[i]);
      DescIndexFromShape(a, b, h, i + 1);
    }
  }

  lemma DescIndexShape(a: Registry, b: Registry, h: Hash)
    requires SameShape(a, b)
    ensures DescIndex(a, h) == DescIndex(b, h)
  {
    DescIndexFromShape(a, b, h, 0);
  }

  lemma {:induction false} MemberIndexFromShape(a: seq<Member>, b: seq<Member>, h: Hash, i: nat)
    requires |a| == |b| && i <= |a|
    requires forall j :: 0 <= j < |a| ==> a[j].nameHash == b[j].nameHash
    ensures MemberIndexFrom(a, h, i) == MemberIndexFrom(b, h, i)
    decreases |a| - i
  {
    if i < |a| {
      MemberIndexFromShape(a, b, h, i + 1);
    }
  }

  lemma {:induction false} GetClassDescShape(a: Registry, b: Registry, h: Hash, hops: nat)
    requires SameShape(a, b)
    ensures GetClassDescVia(a, h, hops) == GetClassDescVia(b, h, hops)
    decreases hops
  {
    DescIndexShape(a, b, h);
    if DescIndex(a, h).None? && hops > 0 && AliasIndex(a.aliases, h).Some? {
      GetClassDescShape(a, b, a.aliases[AliasIndex(a.aliases, h).value].newHash, hops - 1);
    }
  }

  lemma OwnMemberShape(a: Desc, b: Desc, h: Hash)
    requires Shape(a) == Shape(b)
    ensures OwnMember(a, h) == OwnMember(b, h)
  {
    ShapeFacts(a, b);
    MemberIndexFromShape(a.members, b.members, h, 0);
    if FindLocalMember(a, h).None? && AliasIndex(a.memberAliases, h).Some? {
      MemberIndexFromShape(a.members, b.members, a.memberAliases[AliasIndex(a.memberAliases, h).value].newHash, 0);
    }
  }

  /** Bindings play no part in `FindMember`. */
  lemma {:induction false} FindMemberShape(a: Registry, b: Registry, k: nat, h: Hash, fuel: nat)
    requires SameShape(a, b) && k < |a.descs|
    ensures FindMemberIn(a, k, h, fuel) == FindMemberIn(b, k, h, fuel)
    decreases fuel, 1
  {
    if fuel > 0 {
      SearchParentsShape(a, b, k, h, 0, fuel - 1);
      OwnMemberShape(a.descs[k], b.descs[k], h);
      var s := SearchParents(a, k, h, 0, fuel - 1);
      var own := OwnMember(a.descs[k], h);
      assert FindMemberIn(a, k, h, fuel) ==
               if s.Fatal? then Fatal(s.reason) else if s.value.Some? then s
               else if own.None? then Ok(None) else Ok(Some(Found(k, own.value, 0)));
    }
  }

  lemma {:induction false} SearchParentsShape(a: Registry, b: Registry, k: nat, h: Hash, i: nat, fuel: nat)
    requires SameShape(a, b) && k < |a.descs| && i <= |a.descs[k].parents|
    ensures k < |b.descs| && i <= |b.descs[k].parents|
    ensures SearchParents(a, k, h, i, fuel) == SearchParents(b, k, h, i, fuel)
    decreases fuel, 2, |a.descs[k].parents| - i
  {
    ShapeFacts(a.descs[k], b.descs[k]);
    if i < |a.descs[k].parents| {
      var p := a.descs[k].parents[i];
      assert b.descs[k].parents[i] == p;
      GetClassDescShape(a, b, p.parentHash, |a.aliases|);
      match GetClassDesc(a, p.parentHash)
      case None =>
      case Some(pk) =>
        FindMemberShape(a, b, pk, h, fuel);
        SearchParentsShape(a, b, k, h, i + 1, fuel);
        SearchParentsUnfold(a, k, h, i, fuel, pk);
        SearchParentsUnfold(b, k, h, i, fuel, pk);
    }
  }

  /** What a parent's search contributes: its failure, its find shifted by
      the parent's offset, or else the search of the later parents. */
  function AfterParent(f: Result<Option<Found>>, offset: nat, rest: Result<Option<Found>>): Result<Option<Found>>
  {
    match f
    case Fatal(reason) => Fatal(reason)
    case Ok(Some(x)) => Ok(Some(x.(offset := x.offset + offset)))
    case Ok(None) => rest
  }

  lemma SearchParentsUnfold(reg: Registry, k: nat, h: Hash, i: nat, fuel: nat, pk: nat)
    requires k < |reg.descs| && i < |reg.descs[k].parents|
    requires GetClassDesc(reg, reg.descs[k].parents[i].parentHash) == Some(pk)
    ensures SearchParents(reg, k, h, i, fuel) ==
              AfterParent(FindMemberIn(reg, pk, h, fuel), reg.descs[k].parents[i].baseOffset,
                          SearchParents(reg, k, h, i + 1, fuel))
  {
  }

  lemma SameShapeFindMember(a: Registry, b: Registry, k: nat, h: Hash)
    requires SameShape(a, b) && k < |a.descs|
    ensures FindMember(a, k, h) == FindMember(b, k, h)
  {
    FindMemberShape(a, b, k, h, Depth(a));
  }

  // ---------------------------------------------------------------------
  // Binding one member

  /** The found member bound to `data`; nothing else changes. */
  function SetBinding(reg: Registry, f: Found, data: int): (r: Registry)
    requires ValidFound(reg, f)
    ensures SameShape(reg, r)
    ensures ValidFound(r, f) && FoundMember(r, f) == FoundMember(reg, f).(tempBinding := data)
    ensures forall j :: 0 <= j < |reg.descs| && j != f.desc ==> r.descs[j] == reg.descs[j]
    ensures forall i :: 0 <= i < |reg.descs[f.desc].members| && i != f.member ==>
              r.descs[f.desc].members[i] == reg.descs[f.desc].members[i]
  {
    var d := reg.descs[f.desc];
    var r := reg.(descs := reg.descs[f.desc := d.(members := d.members[f.member := d.members[f.member].(tempBinding := data)])]);
    assert Shape(r.descs[f.desc]) == Shape(d) by {
      assert Unbound(r.descs[f.desc].members) == Unbound(d.members);
    }
    r
  }

  /** The member `RegisterTempBinding` and `ClearTempBinding` act on: the one
      `FindMember` finds, provided its declared type is `typeHash`. */
  function BindingTarget(reg: Registry, k: nat, memberHash: Hash, typeHash: Hash): (r: Result<Option<Found>>)
    requires k < |reg.descs|
    ensures r.Ok? <==> FindMember(reg, k, memberHash).Ok?
    ensures r.Ok? && r.value.Some? ==>
              FindMember(reg, k, memberHash) == Ok(r.value) && FoundMember(reg, r.value.value).typeHash == typeHash
    ensures r.Ok? && r.value.None? ==>
              FindMember(reg, k, memberHash).value.None? ||
              FoundMember(reg, FindMember(reg, k, memberHash).value.value).typeHash != typeHash
  {
    match FindMember(reg, k, memberHash)
    case Fatal(e) => Fatal(e)
    case Ok(None) => Ok(None)
    case Ok(Some(f)) => if FoundMember(reg, f).typeHash == typeHash then Ok(Some(f)) else Ok(None)
  }

  /** Binding, then looking the member up again, finds it bound to the data;
      clearing it afterwards with the same hashes clears that same member. */
  lemma BindThenLookUp(reg: Registry, k: nat, memberHash: Hash, typeHash: Hash, data: int)
    requires k < |reg.descs| && BindingTarget(reg, k, memberHash, typeHash).Ok?
    requires BindingTarget(reg, k, memberHash, typeHash).value.Some?
    ensures var f := BindingTarget(reg, k, memberHash, typeHash).value.value;
            var bound := SetBinding(reg, f, data);
            FindMember(bound, k, memberHash) == Ok(Some(f)) && FoundMember(bound, f).tempBinding == data &&
            BindingTarget(bound, k, memberHash, typeHash) == Ok(Some(f)) &&
            FoundMember(SetBinding(bound, f, NullAddress), f) == FoundMember(reg, f).(tempBinding := NullAddress)
  {
    var f := BindingTarget(reg, k, memberHash, typeHash).value.value;
    SameShapeFindMember(reg, SetBinding(reg, f, data), k, memberHash);
  }

  // ---------------------------------------------------------------------
  // Clearing every binding

  /** `ReflTypeDesc::ClearAllTempBindings` on descriptor `k`, as written:
      its own members only. */
  function ClearLocal(reg: Registry, k: nat): (r: Registry)
    requires k < |reg.descs|
    ensures SameShape(reg, r)
  {
    var r := reg.(descs := reg.descs[k := reg.descs[k].(members := Unbound(reg.descs[k].members))]);
    assert Shape(r.descs[k]) == Shape(reg.descs[k]) by {
      assert Unbound(r.descs[k].members) == Unbound(reg.descs[k].members);
    }
    r
  }

  /** The descriptors whose members `FindMember` can reach from `k`: `k`
      and, within the fuel, the ancestors along every resolving parent link. */
  function Ancestors(reg: Registry, k: nat, fuel: nat): (r: seq<nat>)
    requires k < |reg.descs|
    ensures forall j :: 0 <= j < |r| ==> r[j] < |reg.descs|
    decreases fuel, 1
  {
    [k] + (if fuel == 0 then [] else ParentAncestors(reg, k, 0, fuel - 1))
  }

  function ParentAncestors(reg: Registry, k: nat, i: nat, fuel: nat): (r: seq<nat>)
    requires k < |reg.descs| && i <= |reg.descs[k].parents|
    ensures forall j :: 0 <= j < |r| ==> r[j] < |reg.descs|
    decreases fuel, 2, |reg.descs[k].parents| - i
  {
    if i == |reg.descs[k].parents| then []
    else
      (match ParentDesc(reg, k, i)
       case None => []
       case Some(pk) => Ancestors(reg, pk, fuel)) + ParentAncestors(reg, k, i + 1, fuel)
  }

  /** Every member `FindMember` finds lies in one of the ancestors. */
  lemma {:induction false} FoundInAncestors(reg: Registry, k: nat, h: Hash, fuel: nat)
    requires k < |reg.descs| && FindMemberIn(reg, k, h, fuel).Ok? && FindMemberIn(reg, k, h, fuel).value.Some?
    ensures FindMemberIn(reg, k, h, fuel).value.value.desc in Ancestors(reg, k, fuel)
    decreases fuel, 1
  {
    if SearchParents(reg, k, h, 0, fuel - 1).Ok? && SearchParents(reg, k, h, 0, fuel - 1).value.Some? {
      FoundInParentAncestors(reg, k, h, 0, fuel - 1);
    }
  }

  lemma {:induction false} FoundInParentAncestors(reg: Registry, k: nat, h: Hash, i: nat, fuel: nat)
    requires k < |reg.descs| && i <= |reg.descs[k].parents|
    requires SearchParents(reg, k, h, i, fuel).Ok? && SearchParents(reg, k, h, i, fuel).value.Some?
    ensures SearchParents(reg, k, h, i, fuel).value.value.desc in ParentAncestors(reg, k, i, fuel)
    decreases fuel, 2, |reg.descs[k].parents| - i
  {
    var pk := ParentDesc(reg, k, i).value;
    if FindMemberIn(reg, pk, h, fuel).value.Some? {
      FoundInAncestors(reg, pk, h, fuel);
    } else {
      FoundInParentAncestors(reg, k, h, i + 1, fuel);
    }
  }

  /** Clear the own members of the first `n` listed descriptors, in list
      order. */
  function ClearEach(reg: Registry, js: seq<nat>, n: nat): (r: Registry)
    requires n <= |js| && forall j :: 0 <= j < |js| ==> js[j] < |reg.descs|
    ensures SameShape(reg, r)
    decreases n
  {
    if n == 0 then reg
    else ClearLocal(ClearEach(reg, js, n - 1), js[n - 1])
  }

  lemma {:induction false} ClearEachClears(reg: Registry, js: seq<nat>, n: nat, l: nat, i: nat)
    requires n <= |js| && forall j :: 0 <= j < |js| ==> js[j] < |reg.descs|
    requires l < n && i < |reg.descs[js[l]].members|
    ensures i < |ClearEach(reg, js, n).descs[js[l]].members|
    ensures ClearEach(reg, js, n).descs[js[l]].members[i].tempBinding == NullAddress
    decreases n
  {
    var j := js[l];
    ShapeFacts(reg.descs[j], ClearEach(reg, js, n).descs[j]);
    if js[n - 1] != j {
      ClearEachClears(reg, js, n - 1, l, i);
    } else {
      ShapeFacts(reg.descs[j], ClearEach(reg, js, n - 1).descs[j]);
    }
  }

  /** `ClearAllTempBindings` as the binding lookup evidently intends it:
      every descriptor `FindMember` can reach from `k`. */
  function ClearReachable(reg: Registry, k: nat): (r: Registry)
    requires k < |reg.descs|
    ensures SameShape(reg, r)
  {
    var js := Ancestors(reg, k, Depth(reg));
    ClearEach(reg, js, |js|)
  }

  /** After the corrected clear, no member found from `k` is bound. */
  lemma ClearReachableUnbinds(reg: Registry, k: nat, h: Hash)
    requires k < |reg.descs|
    requires FindMember(ClearReachable(reg, k), k, h).Ok? && FindMember(ClearReachable(reg, k), k, h).value.Some?
    ensures FoundMember(ClearReachable(reg, k), FindMember(ClearReachable(reg, k), k, h).value.value).tempBinding == NullAddress
  {
    var cleared := ClearReachable(reg, k);
    SameShapeFindMember(reg, cleared, k, h);
    var f := FindMember(reg, k, h).value.value;
    FoundInAncestors(reg, k, h, Depth(reg));
    var js := Ancestors(reg, k, Depth(reg));
    var l :| 0 <= l < |js| && js[l] == f.desc;
    ClearEachClears(reg, js, |js|, l, f.member);
  }

  // ---------------------------------------------------------------------
  // The as-written clear, on a class whose reflected member lives in its parent

  const Derived := NameHash("Derived")
  const Base := NameHash("Base")
  const Field := NameHash("field")
  const IntType := NameHash("int")

  /** `Derived : Base`, where only `Base` reflects `field`. */
  function InheritedField(): Registry
  {
    Registry([
      Desc("Derived", Derived, 1, 8, 0, 0, None, None, None, [Parent(0, 0, Base)], [], [], []),
      Desc("Base", Base, 1, 8, 0, 0, None, None, None, [],
           [Member("field", Field, IntType, PrimitiveTable.Int32, 4, 0, None, true, NullAddress)], [], [])], [])
  }

  /** Binding `field` through `Derived` binds the member of `Base`; clearing
      every binding of `Derived` as written leaves it bound, while the
      corrected clear unbinds it. */
  lemma ClearLocalMissesInherited(data: int)
    requires data != NullAddress
    ensures BindingTarget(InheritedField(), 0, Field, IntType) == Ok(Some(Found(1, 0, 0)))
    ensures var bound := SetBinding(InheritedField(), Found(1, 0, 0), data);
            FindMember(ClearLocal(bound, 0), 0, Field) == Ok(Some(Found(1, 0, 0))) &&
            FoundMember(ClearLocal(bound, 0), Found(1, 0, 0)).tempBinding == data
    ensures var bound := SetBinding(InheritedField(), Found(1, 0, 0), data);
            FoundMember(ClearReachable(bound, 0), Found(1, 0, 0)).tempBinding == NullAddress
  {
    var reg := InheritedField();
    assert Derived != Base by { assert Derived.folded[0] != Base.folded[0]; }
    assert GetClassDesc(reg, Base) == Some(1);
    assert FindMemberIn(reg, 1, Field, Depth(reg) - 2) == Ok(Some(Found(1, 0, 0)));
    assert SearchParents(reg, 0, Field, 0, Depth(reg) - 1) == Ok(Some(Found(1, 0, 0)));
    var bound := SetBinding(reg, Found(1, 0, 0), data);
    SameShapeFindMember(reg, ClearLocal(bound, 0), 0, Field);
    SameShapeFindMember(reg, bound, 0, Field);
    SameShapeFindMember(bound, ClearReachable(bound, 0), 0, Field);
    ClearReachableUnbinds(bound, 0, Field);
  }
}
