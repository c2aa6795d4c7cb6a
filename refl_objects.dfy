/** The mutable objects of the newer engine: `ReflTypeDesc`, whose lists the
    registration macros prepend to and whose `Finalize` reverses them in
    place, and `ReflLibrary`, the global descriptor and class-alias lists.
    A `ReflMember` lives as a value in its descriptor's member list; what the
    C++ code does to one member object is done here by its descriptor, given
    the member's position. */
module ReflObjects {
  import opened Common
  import opened PrimitiveTable
  import opened ReflData
  import opened ReflLookup
  import opened ReflFinalize
  import opened ReflBindings
  import opened Stream
  import opened ReflStreamRead

  /** The text an `ASSERTGR` without a message reports: its expression. */
  const FinalizeFuncSet := "m_finalizeFunc == NULL"
  const VersioningFuncSet := "m_versioningFunc == NULL"
  const ConversionFuncSet := "Conversion fucntion already registered"

  class ReflTypeDesc {
    var name: string
    var hash: Hash
    var version: nat
    var size: nat
    var baseOffset: nat
    var reflOffset: nat
    var creationFunc: Option<nat>
    var finalizeFunc: Option<nat>
    var versioningFunc: Option<nat>
    var parents: seq<Parent>
    var members: seq<Member>
    var memberAliases: seq<Alias>
    var enumValues: seq<EnumValue>

    /** The descriptor as a value, for the lookups. */
    function Info(): Desc
      reads this
    {
      Desc(name, hash, version, size, baseOffset, reflOffset, creationFunc, finalizeFunc, versioningFunc,
           parents, members, memberAliases, enumValues)
    }

    /** The static descriptor `REFL_IMPL_CLASS_BEGIN` builds. */
    constructor (name: string, size: nat, baseOffset: nat, reflOffset: nat, creationFunc: Option<nat>)
      ensures Info() == NewDesc(name, size, baseOffset, reflOffset, creationFunc)
    {
      this.name := name;
      this.hash := NameHash(name);
      this.version := 1;
      this.size := size;
      this.baseOffset := baseOffset;
      this.reflOffset := reflOffset;
      this.creationFunc := creationFunc;
      this.finalizeFunc := None;
      this.versioningFunc := None;
      this.parents := [];
      this.members := [];
      this.memberAliases := [];
      this.enumValues := [];
    }

    method AddParent(p: Parent)
      modifies this
      ensures Info() == old(Info()).(parents := [p] + old(parents))
    {
      parents := [p] + parents;
    }

    /** The `ReflMember` constructor, which registers the new member with
        its container. */
    method DeclareMember(memberName: string, typeHash: Hash, memberSize: nat, offset: nat) returns (s: Status)
      modifies this
      ensures s.Completed? <==> NewMember(memberName, typeHash, memberSize, offset).Ok?
      ensures s.Completed? ==>
                Info() == old(Info()).(members := [NewMember(memberName, typeHash, memberSize, offset).value] + old(members))
      ensures s.Aborted? ==> s.reason == NewMember(memberName, typeHash, memberSize, offset).reason
    {
      var m := NewMember(memberName, typeHash, memberSize, offset);
      if m.Fatal? {
        return Aborted(m.reason);
      }
      members := [m.value] + members;
      return Completed;
    }

    method MarkDeprecated(i: nat)
      requires i < |members|
      modifies this
      ensures Info() == old(Info()).(members := old(members)[i := old(members)[i].(deprecated := true)])
    {
      members := members[i := members[i].(deprecated := true)];
    }

    method RegisterConversionFunc(i: nat, func: nat) returns (s: Status)
      requires i < |members|
      modifies this
      ensures old(members[i].convFunc).None? ==>
                s == Completed && Info() == old(Info()).(members := old(members)[i := old(members)[i].(convFunc := Some(func))])
      ensures old(members[i].convFunc).Some? ==> s == Aborted(ConversionFuncSet) && Info() == old(Info())
    {
      if members[i].convFunc.Some? {
        return Aborted(ConversionFuncSet);
      }
      members := members[i := members[i].(convFunc := Some(func))];
      return Completed;
    }

    method RegisterFinalizationFunc(func: nat) returns (s: Status)
      modifies this
      ensures old(finalizeFunc).None? ==> s == Completed && Info() == old(Info()).(finalizeFunc := Some(func))
      ensures old(finalizeFunc).Some? ==> s == Aborted(FinalizeFuncSet) && Info() == old(Info())
    {
      if finalizeFunc.Some? {
        return Aborted(FinalizeFuncSet);
      }
      finalizeFunc := Some(func);
      return Completed;
    }

    method RegisterManualVersioningFunc(func: nat, currentVersion: nat) returns (s: Status)
      modifies this
      ensures old(versioningFunc).None? ==>
                s == Completed && Info() == old(Info()).(versioningFunc := Some(func), version := currentVersion)
      ensures old(versioningFunc).Some? ==> s == Aborted(VersioningFuncSet) && Info() == old(Info())
    {
      if versioningFunc.Some? {
        return Aborted(VersioningFuncSet);
      }
      versioningFunc := Some(func);
      version := currentVersion;
      return Completed;
    }

    method RegisterMemberAlias(a: Alias)
      modifies this
      ensures Info() == old(Info()).(memberAliases := [a] + old(memberAliases))
    {
      memberAliases := [a] + memberAliases;
    }

    method RegisterEnumValue(v: EnumValue)
      modifies this
      ensures Info() == old(Info()).(enumValues := [v] + old(enumValues))
    {
      enumValues := [v] + enumValues;
    }

    /** A member's `RegisterTempBinding` and `ClearTempBinding`. */
    method SetTempBinding(i: nat, data: int)
      requires i < |members|
      modifies this
      ensures Info() == old(Info()).(members := old(members)[i := old(members)[i].(tempBinding := data)])
    {
      members := members[i := members[i].(tempBinding := data)];
    }

    /** `ClearAllTempBindings`: the own members, one after the other. */
    method ClearAllTempBindings()
      modifies this
      ensures Info() == old(Info()).(members := Unbound(old(members)))
    {
      var i := 0;
      while i < |members|
        invariant 0 <= i <= |members| == |old(members)|
        invariant forall j :: 0 <= j < i ==> members[j] == old(members)[j].(tempBinding := NullAddress)
        invariant forall j :: i <= j < |members| ==> members[j] == old(members)[j]
        invariant Info() == old(Info()).(members := members)
      {
        members := members[i := members[i].(tempBinding := NullAddress)];
        i := i + 1;
      }
      assert members == Unbound(old(members));
    }

    /** `Finalize`, with `reg` the registry as it stands, this descriptor at
        position `k`. The three lists are reversed by moving one element at
        a time to the front of the new list; the assertions are checked in
        the order the C++ code checks them. */
    method Finalize(reg: Registry, k: nat) returns (s: Status)
      requires k < |reg.descs| && reg.descs[k] == Info()
      modifies this
      ensures s.Completed? <==> FinalizeDesc(reg, k).Ok?
      ensures s.Aborted? ==> s.reason == FinalizeDesc(reg, k).reason
      ensures s.Completed? ==> Info() == FinalizeDesc(reg, k).value
    {
      FinalizeDescSteps(reg, k);
      s := Reorder(reg);
      if s.Aborted? {
        return s;
      }
      var reg2 := reg.(descs := reg.descs[k := Info()]);
      s := CheckUnique(reg2, k);
    }

    /** The reversals, the member finalization and the order check. */
    method Reorder(reg: Registry) returns (s: Status)
      modifies this
      ensures var d := old(Info());
              s.Completed? <==>
                ParentsResolve(reg, d.parents) && FinalizeMembers(reg, d.members).Ok? &&
                Ordered(Reverse(FinalizeMembers(reg, d.members).value))
      ensures var d := old(Info());
              s.Aborted? ==>
                if !ParentsResolve(reg, d.parents) then s.reason == UnregisteredParent
                else if FinalizeMembers(reg, d.members).Fatal? then s.reason == UnregisteredClass
                else s.reason == Misordered
      ensures s.Completed? ==> Info() == Reordered(old(Info()), Reverse(FinalizeMembers(reg, old(members)).value))
    {
      ghost var d := Info();
      var st := ReorderParents(reg);
      if st.Aborted? {
        return st;
      }
      ghost var target := Reordered(d, []);
      assert Info() == target.(members := d.members, enumValues := d.enumValues);

      var ms;
      ms, st := ReverseMembers(reg, members);
      if st.Aborted? {
        return st;
      }
      members := ms;
      assert Info() == target.(members := ms, enumValues := d.enumValues);

      st := CheckOrder(ms);
      if st.Aborted? {
        return st;
      }

      var es := ReverseEnums(enumValues);
      enumValues := es;
      assert Info() == target.(members := ms, enumValues := es);
      return Completed;
    }

    /** The parent list reversed; the first parent's offsets become the
        descriptor's own. */
    method ReorderParents(reg: Registry) returns (s: Status)
      modifies this
      ensures s.Completed? <==> ParentsResolve(reg, old(parents))
      ensures s.Aborted? ==> s.reason == UnregisteredParent && Info() == old(Info())
      ensures s.Completed? ==>
                var ps := Reverse(old(parents));
                Info() == old(Info()).(parents := ps,
                                       baseOffset := if ps == [] then old(baseOffset) else ps[0].baseOffset,
                                       reflOffset := if ps == [] then old(reflOffset) else ps[0].reflOffset)
    {
      var ps, st := ReverseParents(reg, parents);
      if st.Aborted? {
        return st;
      }
      parents := ps;
      if ps != [] {
        baseOffset := ps[0].baseOffset;
        reflOffset := ps[0].reflOffset;
      }
      return Completed;
    }

    static method ReverseParents(reg: Registry, ps: seq<Parent>) returns (r: seq<Parent>, s: Status)
      ensures s.Completed? <==> ParentsResolve(reg, ps)
      ensures s.Aborted? ==> s.reason == UnregisteredParent
      ensures s.Completed? ==> r == Reverse(ps)
    {
      r := [];
      var i := 0;
      while i < |ps|
        invariant 0 <= i <= |ps|
        invariant |r| == i && forall j :: 0 <= j < i ==> r[j] == ps[i - 1 - j]
        invariant forall j :: 0 <= j < i ==> GetClassDesc(reg, ps[j].parentHash).Some?
      {
        r := [ps[i]] + r;
        if GetClassDesc(reg, ps[i].parentHash).None? {
          return r, Aborted(UnregisteredParent);
        }
        i := i + 1;
      }
      return r, Completed;
    }

    static method ReverseMembers(reg: Registry, ms: seq<Member>) returns (r: seq<Member>, s: Status)
      ensures s.Completed? <==> FinalizeMembers(reg, ms).Ok?
      ensures s.Aborted? ==> s.reason == UnregisteredClass
      ensures s.Completed? ==> r == Reverse(FinalizeMembers(reg, ms).value)
    {
      r := [];
      var i := 0;
      while i < |ms|
        invariant 0 <= i <= |ms|
        invariant |r| == i
        invariant forall j :: 0 <= j < i ==> FinalizeMember(reg, ms[j]).Ok?
        invariant forall j :: 0 <= j < i ==> r[j] == FinalizeMember(reg, ms[i - 1 - j]).value
      {
        var m := FinalizeMember(reg, ms[i]);
        if m.Fatal? {
          return r, Aborted(m.reason);
        }
        r := [m.value] + r;
        i := i + 1;
      }
      ReversedFinalized(reg, ms, r);
      return r, Completed;
    }

    static method CheckOrder(ms: seq<Member>) returns (s: Status)
      ensures s.Completed? <==> Ordered(ms)
      ensures s.Aborted? ==> s.reason == Misordered
    {
      if ms == [] {
        return Completed;
      }
      var offset := ms[0].offset;
      var i := 1;
      while i < |ms|
        invariant 1 <= i <= |ms|
        invariant offset == ms[i - 1].offset
        invariant forall j :: 0 < j < i ==> ms[j - 1].offset < ms[j].offset || ms[j].deprecated
      {
        if !(offset < ms[i].offset || ms[i].deprecated) {
          return Aborted(Misordered);
        }
        offset := ms[i].offset;
        i := i + 1;
      }
      return Completed;
    }

    static method ReverseEnums(es: seq<EnumValue>) returns (r: seq<EnumValue>)
      ensures r == Reverse(es)
    {
      r := [];
      var i := 0;
      while i < |es|
        invariant 0 <= i <= |es|
        invariant |r| == i && forall j :: 0 <= j < i ==> r[j] == es[i - 1 - j]
      {
        r := [es[i]] + r;
        i := i + 1;
      }
    }

    /** The uniqueness pass: each member against the later ones, then
        against every parent. */
    static method CheckUnique(reg: Registry, k: nat) returns (s: Status)
      requires k < |reg.descs|
      ensures s.Completed? <==> UniqueFrom(reg, k, 0).Ok?
      ensures s.Aborted? ==> s.reason == UniqueFrom(reg, k, 0).reason
    {
      var ms := reg.descs[k].members;
      var i := 0;
      while i < |ms|
        invariant 0 <= i <= |ms|
        invariant UniqueFrom(reg, k, 0) == UniqueFrom(reg, k, i)
      {
        s := CheckDuplicates(ms, i);
        if s.Aborted? {
          return;
        }
        s := CheckInherited(reg, k, ms[i].nameHash);
        if s.Aborted? {
          return;
        }
        i := i + 1;
      }
      return Completed;
    }

    /** Member `i` against every member after it: names, then hashes. */
    static method CheckDuplicates(ms: seq<Member>, i: nat) returns (s: Status)
      requires i < |ms|
      ensures s.Completed? <==> UnlikeFrom(ms, i, i + 1)
      ensures s.Aborted? ==> DuplicatesFrom(ms, i, i + 1) == Fatal(s.reason)
    {
      var j := i + 1;
      while j < |ms|
        invariant i + 1 <= j <= |ms|
        invariant DuplicatesFrom(ms, i, i + 1) == DuplicatesFrom(ms, i, j)
      {
        if EqualWithin(ms[i].name, ms[j].name, NameLength) {
          return Aborted(DuplicateMembers);
        }
        if ms[i].nameHash == ms[j].nameHash {
          return Aborted(HashCollision);
        }
        j := j + 1;
      }
      return Completed;
    }

    /** No parent of `k` may find the name `h`. */
    static method CheckInherited(reg: Registry, k: nat, h: Hash) returns (s: Status)
      requires k < |reg.descs|
      ensures s.Completed? <==> NotInheritedFrom(reg, k, h, 0)
      ensures s.Aborted? ==> InheritedFrom(reg, k, h, 0) == Fatal(s.reason)
    {
      var ps := reg.descs[k].parents;
      var q := 0;
      while q < |ps|
        invariant 0 <= q <= |ps|
        invariant InheritedFrom(reg, k, h, 0) == InheritedFrom(reg, k, h, q)
      {
        var pk := GetClassDesc(reg, ps[q].parentHash);
        if pk.None? {
          return Aborted(NullParent);
        }
        var found := FindMember(reg, pk.value, h);
        if found.Fatal? {
          return Aborted(found.reason);
        }
        if found.value.Some? {
          return Aborted(ReflectsParentMember);
        }
        q := q + 1;
      }
      return Completed;
    }
  }

  /** `FinalizeDesc` step by step: each check in turn decides the outcome
      or hands on to the next. */
  lemma FinalizeDescSteps(reg: Registry, k: nat)
    requires k < |reg.descs|
    ensures var d := reg.descs[k];
            !ParentsResolve(reg, d.parents) ==> FinalizeDesc(reg, k) == Fatal(UnregisteredParent)
    ensures var d := reg.descs[k];
            ParentsResolve(reg, d.parents) && FinalizeMembers(reg, d.members).Fatal? ==>
              FinalizeDesc(reg, k) == Fatal(UnregisteredClass)
    ensures var d := reg.descs[k];
            ParentsResolve(reg, d.parents) && FinalizeMembers(reg, d.members).Ok? ==>
              var d2 := Reordered(d, Reverse(FinalizeMembers(reg, d.members).value));
              var rest := UniqueFrom(reg.(descs := reg.descs[k := d2]), k, 0);
              FinalizeDesc(reg, k) ==
                if !Ordered(d2.members) then Fatal(Misordered)
                else if rest.Fatal? then Fatal(rest.reason) else Ok(d2)
  {
  }

  lemma ReversedFinalized(reg: Registry, ms: seq<Member>, r: seq<Member>)
    requires |r| == |ms|
    requires forall j :: 0 <= j < |ms| ==> FinalizeMember(reg, ms[j]).Ok?
    requires forall j :: 0 <= j < |ms| ==> r[j] == FinalizeMember(reg, ms[|ms| - 1 - j]).value
    ensures FinalizeMembers(reg, ms).Ok? && r == Reverse(FinalizeMembers(reg, ms).value)
  {
  }

  /** The distinct objects of `ds`, as values. */
  function Infos(ds: seq<ReflTypeDesc>): (r: seq<Desc>)
    reads ds
    ensures |r| == |ds| && forall i :: 0 <= i < |ds| ==> r[i] == ds[i].Info()
  {
    if ds == [] then [] else [ds[0].Info()] + Infos(ds[1..])
  }

  /** `s_descHead` and `s_classAliasHead`. */
  class ReflLibrary {
    var descs: seq<ReflTypeDesc>
    var aliases: seq<Alias>

    /** A descriptor object appears once in the list. */
    ghost predicate Valid()
      reads this
    {
      forall i, j :: 0 <= i < j < |descs| ==> descs[i] != descs[j]
    }

    function View(): Registry
      reads this, descs
    {
      Registry(Infos(descs), aliases)
    }

    constructor ()
      ensures Valid() && View() == Registry([], [])
    {
      descs := [];
      aliases := [];
    }

    method RegisterClassDesc(d: ReflTypeDesc)
      requires Valid() && d !in descs
      modifies this
      ensures Valid() && descs == [d] + old(descs)
      ensures View() == Registry([d.Info()] + old(View().descs), old(aliases))
    {
      descs := [d] + descs;
    }

    method RegisterDeprecatedClassDesc(a: Alias)
      requires Valid()
      modifies this
      ensures Valid() && descs == old(descs)
      ensures View() == Registry(old(View().descs), [a] + old(aliases))
    {
      aliases := [a] + aliases;
    }

    /** `ReflInitialize`: finalize each descriptor in list order, then check
        the names, hashes and aliases. */
    method Initialize() returns (s: Status)
      requires Valid()
      modifies descs
      ensures Valid() && descs == old(descs)
      ensures s.Completed? <==> ReflFinalize.Initialize(old(View())).Ok?
      ensures s.Aborted? ==> s.reason == ReflFinalize.Initialize(old(View())).reason
      ensures s.Completed? ==> View() == ReflFinalize.Initialize(old(View())).value
    {
      s := FinalizeAll();
      if s.Aborted? {
        return s;
      }
      var fin := View();
      s := CheckClasses(fin);
      if s.Aborted? {
        return s;
      }
      s := CheckAliasTargets(fin);
    }

    /** The first pass of `ReflInitialize`: finalize each descriptor in list
        order against the registry as the earlier ones left it. */
    method FinalizeAll() returns (s: Status)
      requires Valid()
      modifies descs
      ensures Valid() && descs == old(descs)
      ensures s.Completed? <==> FinalizeFrom(old(View()), 0).Ok?
      ensures s.Aborted? ==> s.reason == FinalizeFrom(old(View()), 0).reason
      ensures s.Completed? ==> View() == FinalizeFrom(old(View()), 0).value
    {
      ghost var reg0 := View();
      var i := 0;
      while i < |descs|
        invariant 0 <= i <= |descs|
        invariant View().aliases == reg0.aliases && |View().descs| == |reg0.descs|
        invariant FinalizeFrom(reg0, 0) == FinalizeFrom(View(), i)
      {
        var st := FinalizeAt(i);
        if st.Aborted? {
          return st;
        }
        i := i + 1;
      }
      return Completed;
    }

    /** Finalize the descriptor at position `i` against the registry as it
        stands. */
    method FinalizeAt(i: nat) returns (s: Status)
      requires Valid() && i < |descs|
      modifies descs
      ensures Valid() && descs == old(descs) && aliases == old(aliases)
      ensures s.Completed? <==> FinalizeDesc(old(View()), i).Ok?
      ensures s.Aborted? ==> s.reason == FinalizeDesc(old(View()), i).reason
      ensures s.Completed? ==>
                View() == old(View()).(descs := old(View()).descs[i := FinalizeDesc(old(View()), i).value])
    {
      ghost var before := View();
      s := descs[i].Finalize(View(), i);
      if s.Completed? {
        assert forall j :: 0 <= j < |descs| && j != i ==> descs[j].Info() == before.descs[j];
        assert View().descs == before.descs[i := FinalizeDesc(before, i).value];
      }
    }

    /** Clear the own bindings of the descriptor at position `j`. */
    method ClearAt(j: nat)
      requires Valid() && j < |descs|
      modifies descs
      ensures Valid() && descs == old(descs) && aliases == old(aliases)
      ensures View() == ClearLocal(old(View()), j)
    {
      ghost var before := View();
      descs[j].ClearAllTempBindings();
      assert forall l :: 0 <= l < |descs| && l != j ==> descs[l].Info() == before.descs[l];
      assert View().descs == ClearLocal(before, j).descs;
    }

    static method CheckClasses(reg: Registry) returns (s: Status)
      ensures s.Completed? <==> ClassesFrom(reg, 0).Ok?
      ensures s.Aborted? ==> s.reason == ClassesFrom(reg, 0).reason
    {
      var i := 0;
      while i < |reg.descs|
        invariant 0 <= i <= |reg.descs|
        invariant ClassesFrom(reg, 0) == ClassesFrom(reg, i)
      {
        s := CheckClassPairs(reg, i);
        if s.Aborted? {
          return;
        }
        s := CheckAliasConflicts(reg, i);
        if s.Aborted? {
          return;
        }
        i := i + 1;
      }
      return Completed;
    }

    /** Descriptor `i` against every descriptor after it: names, then hashes. */
    static method CheckClassPairs(reg: Registry, i: nat) returns (s: Status)
      requires i < |reg.descs|
      ensures s.Completed? <==> ClassUnlikeFrom(reg, i, i + 1)
      ensures s.Aborted? ==> ClassPairsFrom(reg, i, i + 1) == Fatal(s.reason)
    {
      var j := i + 1;
      while j < |reg.descs|
        invariant i + 1 <= j <= |reg.descs|
        invariant ClassPairsFrom(reg, i, i + 1) == ClassPairsFrom(reg, i, j)
      {
        if EqualWithin(reg.descs[i].name, reg.descs[j].name, NameLength) {
          return Aborted(DuplicateClassNames);
        }
        if reg.descs[i].hash == reg.descs[j].hash {
          return Aborted(HashConflict);
        }
        j := j + 1;
      }
      return Completed;
    }

    /** No class alias may have descriptor `i`'s hash as its old name. */
    static method CheckAliasConflicts(reg: Registry, i: nat) returns (s: Status)
      requires i < |reg.descs|
      ensures s.Completed? <==> NoAliasFor(reg, i, 0)
      ensures s.Aborted? ==> AliasConflictsFrom(reg, i, 0) == Fatal(s.reason)
    {
      var a := 0;
      while a < |reg.aliases|
        invariant 0 <= a <= |reg.aliases|
        invariant AliasConflictsFrom(reg, i, 0) == AliasConflictsFrom(reg, i, a)
      {
        if reg.aliases[a].oldHash == reg.descs[i].hash {
          return Aborted(AliasConflict);
        }
        a := a + 1;
      }
      return Completed;
    }

    static method CheckAliasTargets(reg: Registry) returns (s: Status)
      ensures s.Completed? <==> AliasTargetsFrom(reg, 0).Ok?
      ensures s.Aborted? ==> s.reason == AliasTargetsFrom(reg, 0).reason
    {
      var a := 0;
      while a < |reg.aliases|
        invariant 0 <= a <= |reg.aliases|
        invariant AliasTargetsFrom(reg, 0) == AliasTargetsFrom(reg, a)
      {
        if GetClassDesc(reg, reg.aliases[a].newHash).None? {
          return Aborted(MissingAliasClass);
        }
        a := a + 1;
      }
      return Completed;
    }

    /** `ReflTypeDesc::RegisterTempBinding` on descriptor `k`: bind the
        member `FindMember` finds when its type matches, and say whether one
        was bound. */
    method RegisterTempBinding(k: nat, memberHash: Hash, typeHash: Hash, data: int) returns (bound: bool, s: Status)
      requires Valid() && k < |descs|
      modifies descs
      ensures Valid() && descs == old(descs)
      ensures s.Completed? <==> FindMember(old(View()), k, memberHash).Ok?
      ensures s.Completed? ==> (bound <==> BindingTarget(old(View()), k, memberHash, typeHash).value.Some?)
      ensures s.Completed? && bound ==>
                View() == SetBinding(old(View()), BindingTarget(old(View()), k, memberHash, typeHash).value.value, data)
      ensures !bound ==> View() == old(View())
    {
      bound, s := Rebind(k, memberHash, typeHash, data);
    }

    /** `ReflTypeDesc::ClearTempBinding`: the same lookup, clearing. */
    method ClearTempBinding(k: nat, memberHash: Hash, typeHash: Hash) returns (s: Status)
      requires Valid() && k < |descs|
      modifies descs
      ensures Valid() && descs == old(descs)
      ensures s.Completed? <==> FindMember(old(View()), k, memberHash).Ok?
      ensures s.Completed? && BindingTarget(old(View()), k, memberHash, typeHash).value.Some? ==>
                View() == SetBinding(old(View()), BindingTarget(old(View()), k, memberHash, typeHash).value.value, NullAddress)
      ensures !(s.Completed? && BindingTarget(old(View()), k, memberHash, typeHash).value.Some?) ==> View() == old(View())
    {
      var bound;
      bound, s := Rebind(k, memberHash, typeHash, NullAddress);
    }

    method Rebind(k: nat, memberHash: Hash, typeHash: Hash, data: int) returns (bound: bool, s: Status)
      requires Valid() && k < |descs|
      modifies descs
      ensures Valid() && descs == old(descs)
      ensures s.Completed? <==> FindMember(old(View()), k, memberHash).Ok?
      ensures bound <==> s.Completed? && BindingTarget(old(View()), k, memberHash, typeHash).value.Some?
      ensures bound ==>
                View() == SetBinding(old(View()), BindingTarget(old(View()), k, memberHash, typeHash).value.value, data)
      ensures !bound ==> View() == old(View())
    {
      var reg := View();
      var target := BindingTarget(reg, k, memberHash, typeHash);
      if target.Fatal? {
        return false, Aborted(target.reason);
      }
      if target.value.None? {
        return false, Completed;
      }
      var f := target.value.value;
      descs[f.desc].SetTempBinding(f.member, data);
      assert View() == SetBinding(reg, f, data);
      return true, Completed;
    }

    /** The corrected `ClearAllTempBindings` for descriptor `k`: clear the own
        members of `k` and of every ancestor `FindMember` can reach. */
    method ClearReachableBindings(k: nat)
      requires Valid() && k < |descs|
      modifies descs
      ensures Valid() && descs == old(descs)
      ensures View() == ClearReachable(old(View()), k)
    {
      ghost var reg0 := View();
      var js := Ancestors(View(), k, Depth(View()));
      var i := 0;
      while i < |js|
        invariant 0 <= i <= |js|
        invariant View() == ClearEach(reg0, js, i)
      {
        ClearAt(js[i]);
        i := i + 1;
      }
    }
  
    /** `ReflLibrary::Deserialize(stream, memFlags)`: the sibling loop over
        the nodes from the cursor on, each read by `LoadClassNode` against
        the registered descriptors, starting from NULL; when the loop
        completes the cursor climbs to the node above. */
    method Deserialize(reader: TextReader, mem: Memory, hooks: Hooks) returns (r: Result<(Memory, int)>)
      requires reader.Valid()
      modifies reader
      ensures reader.Valid()
      ensures r == Visit(Loader(old(View()), hooks), Siblings(reader.document, old(reader.path)),
                         Position(old(reader.path)), (mem, NullAddress))
      ensures r.Ok? ==> reader.path == Above(old(reader.path))
    {
      var reg := View();
      r := VisitSiblings(reader, Loader(reg, hooks), (mem, NullAddress));
      if r.Ok? {
        var e := reader.ReadParentNode();
      }
    }
  }
}
