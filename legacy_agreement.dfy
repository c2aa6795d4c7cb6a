/** The older engine's records read as the newer engine's: a parent link
    with its one offset as the base offset and no reflection offset, a member
    that is never deprecated and has no temporary binding, a descriptor at
    version 1 with no versioning callback and no enum values of its own.
    Under this reading every lookup of the older engine computes what the
    newer engine's lookup of the same name computes, so what is proved about
    the newer lookups carries over. */
module LegacyAgreement {
  import opened Common
  import opened ReflData
  import LegacyData
  import LegacyLookup
  import ReflLookup
  import ReflLookupProps

  function EmbedParent(p: LegacyData.LegacyParent): Parent
  {
    Parent(p.offset, 0, p.parentHash)
  }

  function EmbedMember(m: LegacyData.LegacyMember): Member
  {
    Member(m.name, m.nameHash, m.typeHash, m.index, m.size, m.offset, m.convFunc, false, NullAddress)
  }

  function EmbedDesc(d: LegacyData.ClassDesc): (e: Desc)
    ensures e.hash == d.hash && e.memberAliases == d.memberAliases
    ensures |e.parents| == |d.parents| && forall i :: 0 <= i < |d.parents| ==> e.parents[i] == EmbedParent(d.parents[i])
    ensures |e.members| == |d.members| && forall i :: 0 <= i < |d.members| ==> e.members[i] == EmbedMember(d.members[i])
  {
    Desc(d.name, d.hash, 1, d.size, 0, 0, Some(d.creationFunc), d.finalizeFunc, None,
         seq(|d.parents|, i requires 0 <= i < |d.parents| => EmbedParent(d.parents[i])),
         seq(|d.members|, i requires 0 <= i < |d.members| => EmbedMember(d.members[i])),
         d.memberAliases, [])
  }

  function Embed(lib: LegacyData.Library): (reg: Registry)
    ensures |reg.descs| == |lib.descs| && reg.aliases == lib.aliases
    ensures forall i :: 0 <= i < |lib.descs| ==> reg.descs[i] == EmbedDesc(lib.descs[i])
    ensures ReflLookup.Depth(reg) == LegacyLookup.Depth(lib)
  {
    Registry(seq(|lib.descs|, i requires 0 <= i < |lib.descs| => EmbedDesc(lib.descs[i])), lib.aliases)
  }

  // ---------------------------------------------------------------------
  // Descriptors

  lemma {:induction false} DescIndexAgrees(lib: LegacyData.Library, h: Hash, i: nat)
    requires i <= |lib.descs|
    ensures LegacyLookup.DescIndexFrom(lib.descs, h, i) == ReflLookup.DescIndexFrom(Embed(lib).descs, h, i)
    decreases |lib.descs| - i
  {
    if i < |lib.descs| {
      DescIndexAgrees(lib, h, i + 1);
    }
  }

  /** `GetClassDesc` resolves every hash to the same descriptor, aliases
      included. */
  lemma {:induction false} GetClassDescAgrees(lib: LegacyData.Library, h: Hash, hops: nat)
    ensures LegacyLookup.GetClassDescVia(lib, h, hops) == ReflLookup.GetClassDescVia(Embed(lib), h, hops)
    decreases hops
  {
    DescIndexAgrees(lib, h, 0);
    if hops > 0 {
      match ReflLookup.AliasIndex(lib.aliases, h)
      case None =>
      case Some(j) => GetClassDescAgrees(lib, lib.aliases[j].newHash, hops - 1);
    }
  }

  // ---------------------------------------------------------------------
  // Members

  lemma {:induction false} MemberIndexAgrees(d: LegacyData.ClassDesc, h: Hash, i: nat)
    requires i <= |d.members|
    ensures LegacyLookup.MemberIndexFrom(d.members, h, i) == ReflLookup.MemberIndexFrom(EmbedDesc(d).members, h, i)
    decreases |d.members| - i
  {
    if i < |d.members| {
      MemberIndexAgrees(d, h, i + 1);
    }
  }

  /** A descriptor's own lookup, local members then the first alias,
      agrees. */
  lemma LocalOrAliasedAgrees(d: LegacyData.ClassDesc, h: Hash)
    ensures LegacyLookup.LocalOrAliased(d, h) == ReflLookup.OwnMember(EmbedDesc(d), h)
  {
    MemberIndexAgrees(d, h, 0);
    match ReflLookup.AliasIndex(d.memberAliases, h)
    case None =>
    case Some(a) => MemberIndexAgrees(d, d.memberAliases[a].newHash, 0);
  }

  /** `FindMember` finds the same member in the same descriptor at the same
      offset, and fails for the same reason. */
  lemma {:induction false} FindMemberAgrees(lib: LegacyData.Library, k: nat, h: Hash, fuel: nat)
    requires k < |lib.descs|
    ensures LegacyLookup.FindMemberIn(lib, k, h, fuel) == ReflLookup.FindMemberIn(Embed(lib), k, h, fuel)
    decreases fuel, 1
  {
    if fuel > 0 {
      SearchParentsAgrees(lib, k, h, 0, fuel - 1);
      LocalOrAliasedAgrees(lib.descs[k], h);
    }
  }

  lemma {:induction false} SearchParentsAgrees(lib: LegacyData.Library, k: nat, h: Hash, i: nat, fuel: nat)
    requires k < |lib.descs| && i <= |lib.descs[k].parents|
    ensures LegacyLookup.SearchParents(lib, k, h, i, fuel) == ReflLookup.SearchParents(Embed(lib), k, h, i, fuel)
    decreases fuel, 2, |lib.descs[k].parents| - i
  {
    if i < |lib.descs[k].parents| {
      var reg := Embed(lib);
      var p := lib.descs[k].parents[i];
      assert reg.descs[k].parents[i] == EmbedParent(p);
      GetClassDescAgrees(lib, p.parentHash, |lib.aliases|);
      var g := LegacyLookup.GetClassDesc(lib, p.parentHash);
      if g.Some? {
        FindMemberAgrees(lib, g.value, h, fuel);
        if LegacyLookup.FindMemberIn(lib, g.value, h, fuel) == Ok(None) {
          SearchParentsAgrees(lib, k, h, i + 1, fuel);
        }
      }
    }
  }

  // ---------------------------------------------------------------------
  // Parents and member counts

  lemma {:induction false} ParentIndexAgrees(d: LegacyData.ClassDesc, h: Hash, i: nat)
    requires i <= |d.parents|
    ensures LegacyLookup.ParentIndexFrom(d.parents, h, i) == ReflLookup.ParentIndexFrom(EmbedDesc(d).parents, h, i)
    decreases |d.parents| - i
  {
    if i < |d.parents| {
      ParentIndexAgrees(d, h, i + 1);
    }
  }

  lemma {:induction false} NumMembersAgrees(lib: LegacyData.Library, k: nat, fuel: nat)
    requires k < |lib.descs|
    ensures LegacyLookup.NumMembersIn(lib, k, fuel) == ReflLookup.NumMembersIn(Embed(lib), k, fuel)
    decreases fuel, 1
  {
    if fuel > 0 {
      ParentMembersAgrees(lib, k, 0, fuel - 1);
    }
  }

  lemma {:induction false} ParentMembersAgrees(lib: LegacyData.Library, k: nat, i: nat, fuel: nat)
    requires k < |lib.descs| && i <= |lib.descs[k].parents|
    ensures LegacyLookup.ParentMembers(lib, k, i, fuel) == ReflLookup.ParentMembers(Embed(lib), k, i, fuel)
    decreases fuel, 2, |lib.descs[k].parents| - i
  {
    if i < |lib.descs[k].parents| {
      var h := lib.descs[k].parents[i].parentHash;
      GetClassDescAgrees(lib, h, |lib.aliases|);
      match LegacyLookup.GetClassDesc(lib, h)
      case None =>
      case Some(pk) =>
        NumMembersAgrees(lib, pk, fuel);
        ParentMembersAgrees(lib, k, i + 1, fuel);
    }
  }

  // ---------------------------------------------------------------------
  // What carries over

  /** A member the older `FindMember` reports is the one its descriptor's
      own lookup gives for the name, reached through parent links whose
      offsets add up to the reported offset. */
  lemma FindMemberSound(lib: LegacyData.Library, k: nat, h: Hash) returns (path: seq<nat>)
    requires k < |lib.descs|
    requires LegacyLookup.FindMember(lib, k, h).Ok? && LegacyLookup.FindMember(lib, k, h).value.Some?
    ensures var f := LegacyLookup.FindMember(lib, k, h).value.value;
            ReflLookupProps.MemberChain(Embed(lib), k, path, f.desc, f.offset) &&
            LegacyLookup.LocalOrAliased(lib.descs[f.desc], h) == Some(f.member)
  {
    var fuel := LegacyLookup.Depth(lib);
    FindMemberAgrees(lib, k, h, fuel);
    path := ReflLookupProps.FindMemberSound(Embed(lib), k, h, fuel);
    LocalOrAliasedAgrees(lib.descs[LegacyLookup.FindMember(lib, k, h).value.value.desc], h);
  }

  /** In a library whose parent links all resolve without a cycle, a name
      some ancestor declares or aliases is always found. */
  lemma FindMemberComplete(lib: LegacyData.Library, k: nat, h: Hash, path: seq<nat>, dest: nat, offset: nat)
    requires k < |lib.descs| && ReflLookup.Grounded(Embed(lib), k, LegacyLookup.Depth(lib))
    requires dest < |lib.descs| && ReflLookupProps.MemberChain(Embed(lib), k, path, dest, offset)
    requires LegacyLookup.LocalOrAliased(lib.descs[dest], h).Some?
    ensures LegacyLookup.FindMember(lib, k, h).Ok? && LegacyLookup.FindMember(lib, k, h).value.Some?
  {
    var fuel := LegacyLookup.Depth(lib);
    LocalOrAliasedAgrees(lib.descs[dest], h);
    ReflLookupProps.FindMemberComplete(Embed(lib), k, h, fuel, path, dest, offset);
    FindMemberAgrees(lib, k, h, fuel);
  }

  /** In such a library `FindMember` never asserts. */
  lemma FindMemberNeverFails(lib: LegacyData.Library, k: nat, h: Hash)
    requires k < |lib.descs| && ReflLookup.Grounded(Embed(lib), k, LegacyLookup.Depth(lib))
    ensures LegacyLookup.FindMember(lib, k, h).Ok?
  {
    var fuel := LegacyLookup.Depth(lib);
    ReflLookupProps.FindMemberGrounded(Embed(lib), k, h, fuel);
    FindMemberAgrees(lib, k, h, fuel);
  }

  /** ... and `NumMembers` never dereferences a NULL parent. */
  lemma NumMembersNeverFails(lib: LegacyData.Library, k: nat)
    requires k < |lib.descs| && ReflLookup.Grounded(Embed(lib), k, LegacyLookup.Depth(lib))
    ensures LegacyLookup.NumMembers(lib, k).Ok?
  {
    var fuel := LegacyLookup.Depth(lib);
    ReflLookupProps.NumMembersGrounded(Embed(lib), k, fuel);
    NumMembersAgrees(lib, k, fuel);
  }

  /** `FindParent` picks the same direct parent. */
  lemma FindParentAgrees(d: LegacyData.ClassDesc, h: Hash)
    ensures LegacyLookup.FindParent(d, h) == ReflLookup.FindParent(EmbedDesc(d), h)
  {
    ParentIndexAgrees(d, h, 0);
  }
}
