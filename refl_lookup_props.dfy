/** What the lookups of the newer engine promise, stated against an
    independent description of an object's ancestry: a chain of parent
    links, each resolved through the registry, whose offsets add up. */
module ReflLookupProps {
  import opened Common
  import opened ReflData
  import opened ReflLookup

  /** Following the parent positions in `path` from descriptor `k` reaches
      descriptor `dest`, whose sub-object starts `offset` bytes into `k`'s. */
  ghost predicate MemberChain(reg: Registry, k: nat, path: seq<nat>, dest: nat, offset: nat)
    requires k < |reg.descs|
    decreases |path|
  {
    if path == [] then dest == k && offset == 0
    else
      path[0] < |reg.descs[k].parents| && ParentDesc(reg, k, path[0]).Some? &&
      var p := reg.descs[k].parents[path[0]];
      offset >= p.baseOffset &&
      MemberChain(reg, ParentDesc(reg, k, path[0]).value, path[1..], dest, offset - p.baseOffset)
  }

  /** Following the parent positions in `path` from `k` ends with a link to
      a type of hash `h`; `base` and `refl` add up the links' offsets. */
  ghost predicate LinkChain(reg: Registry, k: nat, path: seq<nat>, h: Hash, base: nat, refl: nat)
    requires k < |reg.descs|
    decreases |path|
  {
    path != [] && path[0] < |reg.descs[k].parents| &&
    var p := reg.descs[k].parents[path[0]];
    base >= p.baseOffset && refl >= p.reflOffset &&
    if |path| == 1 then p.parentHash == h && base == p.baseOffset && refl == p.reflOffset
    else
      ParentDesc(reg, k, path[0]).Some? &&
      LinkChain(reg, ParentDesc(reg, k, path[0]).value, path[1..], h, base - p.baseOffset, refl - p.reflOffset)
  }

  // ---------------------------------------------------------------------
  // Grounded registries never hit the crash paths

  lemma {:induction false} GroundedMonotone(reg: Registry, k: nat, fuel: nat, more: nat)
    requires k < |reg.descs| && Grounded(reg, k, fuel) && fuel <= more
    ensures Grounded(reg, k, more)
    decreases fuel
  {
    forall i | 0 <= i < |reg.descs[k].parents|
      ensures ParentDesc(reg, k, i).Some? && Grounded(reg, ParentDesc(reg, k, i).value, more - 1)
    {
      GroundedMonotone(reg, ParentDesc(reg, k, i).value, fuel - 1, more - 1);
    }
  }

  lemma {:induction false} FindMemberGrounded(reg: Registry, k: nat, h: Hash, fuel: nat)
    requires k < |reg.descs| && Grounded(reg, k, fuel)
    ensures FindMemberIn(reg, k, h, fuel).Ok?
    decreases fuel, 1
  {
    SearchParentsGrounded(reg, k, h, 0, fuel - 1);
  }

  lemma {:induction false} SearchParentsGrounded(reg: Registry, k: nat, h: Hash, i: nat, fuel: nat)
    requires k < |reg.descs| && i <= |reg.descs[k].parents|
    requires forall j :: 0 <= j < |reg.descs[k].parents| ==>
               ParentDesc(reg, k, j).Some? && Grounded(reg, ParentDesc(reg, k, j).value, fuel)
    ensures SearchParents(reg, k, h, i, fuel).Ok?
    decreases fuel, 2, |reg.descs[k].parents| - i
  {
    if i < |reg.descs[k].parents| {
      FindMemberGrounded(reg, ParentDesc(reg, k, i).value, h, fuel);
      SearchParentsGrounded(reg, k, h, i + 1, fuel);
    }
  }

  /** In a grounded descriptor more fuel finds the same member: the bound
      `FindMember` is given never cuts a search short. */
  lemma {:induction false} FindMemberFuel(reg: Registry, k: nat, h: Hash, fuel: nat, more: nat)
    requires k < |reg.descs| && Grounded(reg, k, fuel) && fuel <= more
    ensures FindMemberIn(reg, k, h, more) == FindMemberIn(reg, k, h, fuel)
    decreases fuel, 1
  {
    SearchParentsFuel(reg, k, h, 0, fuel - 1, more - 1);
  }

  lemma {:induction false} SearchParentsFuel(reg: Registry, k: nat, h: Hash, i: nat, fuel: nat, more: nat)
    requires k < |reg.descs| && i <= |reg.descs[k].parents| && fuel <= more
    requires forall j :: 0 <= j < |reg.descs[k].parents| ==>
               ParentDesc(reg, k, j).Some? && Grounded(reg, ParentDesc(reg, k, j).value, fuel)
    ensures SearchParents(reg, k, h, i, more) == SearchParents(reg, k, h, i, fuel)
    decreases fuel, 2, |reg.descs[k].parents| - i
  {
    if i < |reg.descs[k].parents| {
      FindMemberFuel(reg, ParentDesc(reg, k, i).value, h, fuel, more);
      SearchParentsFuel(reg, k, h, i + 1, fuel, more);
    }
  }

  /** Parents from `i` on none of which finds `h` leave the search empty. */
  lemma {:induction false} SearchParentsNone(reg: Registry, k: nat, h: Hash, i: nat, fuel: nat)
    requires k < |reg.descs| && i <= |reg.descs[k].parents|
    requires forall j :: i <= j < |reg.descs[k].parents| ==>
               ParentDesc(reg, k, j).Some? && FindMemberIn(reg, ParentDesc(reg, k, j).value, h, fuel) == Ok(None)
    ensures SearchParents(reg, k, h, i, fuel) == Ok(None)
    decreases |reg.descs[k].parents| - i
  {
    if i < |reg.descs[k].parents| {
      var pk := ParentDesc(reg, k, i).value;
      assert GetClassDesc(reg, reg.descs[k].parents[i].parentHash) == Some(pk);
      assert FindMemberIn(reg, pk, h, fuel) == Ok(None);
      SearchParentsNone(reg, k, h, i + 1, fuel);
    }
  }

  lemma {:induction false} ParentOffsetGrounded(reg: Registry, k: nat, h: Hash, fuel: nat)
    requires k < |reg.descs| && Grounded(reg, k, fuel)
    ensures ParentOffsetIn(reg, k, h, fuel).Ok?
    decreases fuel, 1
  {
    if FindParent(reg.descs[k], h).None? {
      SearchParentOffsetsGrounded(reg, k, h, 0, fuel - 1);
    }
  }

  lemma {:induction false} SearchParentOffsetsGrounded(reg: Registry, k: nat, h: Hash, i: nat, fuel: nat)
    requires k < |reg.descs| && i <= |reg.descs[k].parents|
    requires forall j :: 0 <= j < |reg.descs[k].parents| ==>
               ParentDesc(reg, k, j).Some? && Grounded(reg, ParentDesc(reg, k, j).value, fuel)
    ensures SearchParentOffsets(reg, k, h, i, fuel).Ok?
    decreases fuel, 2, |reg.descs[k].parents| - i
  {
    if i < |reg.descs[k].parents| {
      ParentOffsetGrounded(reg, ParentDesc(reg, k, i).value, h, fuel);
      SearchParentOffsetsGrounded(reg, k, h, i + 1, fuel);
    }
  }

  lemma {:induction false} NumMembersGrounded(reg: Registry, k: nat, fuel: nat)
    requires k < |reg.descs| && Grounded(reg, k, fuel)
    ensures NumMembersIn(reg, k, fuel).Ok?
    decreases fuel, 1
  {
    ParentMembersGrounded(reg, k, 0, fuel - 1);
  }

  lemma {:induction false} ParentMembersGrounded(reg: Registry, k: nat, i: nat, fuel: nat)
    requires k < |reg.descs| && i <= |reg.descs[k].parents|
    requires forall j :: 0 <= j < |reg.descs[k].parents| ==>
               ParentDesc(reg, k, j).Some? && Grounded(reg, ParentDesc(reg, k, j).value, fuel)
    ensures ParentMembers(reg, k, i, fuel).Ok?
    decreases fuel, 2, |reg.descs[k].parents| - i
  {
    if i < |reg.descs[k].parents| {
      NumMembersGrounded(reg, ParentDesc(reg, k, i).value, fuel);
      ParentMembersGrounded(reg, k, i + 1, fuel);
    }
  }

  // ---------------------------------------------------------------------
  // FindMember

  /** A member `FindMember` reports is the one its descriptor's own lookup
      gives for the name, and that descriptor is reached from `k` through
      parent links whose base offsets add up to the reported offset. */
  lemma {:induction false} FindMemberSound(reg: Registry, k: nat, h: Hash, fuel: nat) returns (path: seq<nat>)
    requires k < |reg.descs|
    requires FindMemberIn(reg, k, h, fuel).Ok? && FindMemberIn(reg, k, h, fuel).value.Some?
    ensures var f := FindMemberIn(reg, k, h, fuel).value.value;
            MemberChain(reg, k, path, f.desc, f.offset) && OwnMember(reg.descs[f.desc], h) == Some(f.member)
    decreases fuel, 1
  {
    var s := SearchParents(reg, k, h, 0, fuel - 1);
    if s.Ok? && s.value.Some? {
      path := SearchParentsSound(reg, k, h, 0, fuel - 1);
    } else {
      path := [];
    }
  }

  lemma {:induction false} SearchParentsSound(reg: Registry, k: nat, h: Hash, i: nat, fuel: nat) returns (path: seq<nat>)
    requires k < |reg.descs| && i <= |reg.descs[k].parents|
    requires SearchParents(reg, k, h, i, fuel).Ok? && SearchParents(reg, k, h, i, fuel).value.Some?
    ensures var f := SearchParents(reg, k, h, i, fuel).value.value;
            MemberChain(reg, k, path, f.desc, f.offset) && OwnMember(reg.descs[f.desc], h) == Some(f.member)
    decreases fuel, 2, |reg.descs[k].parents| - i
  {
    var pk := ParentDesc(reg, k, i).value;
    var r := FindMemberIn(reg, pk, h, fuel);
    if r.Ok? && r.value.Some? {
      var rest := FindMemberSound(reg, pk, h, fuel);
      path := [i] + rest;
      assert path[1..] == rest;
    } else {
      path := SearchParentsSound(reg, k, h, i + 1, fuel);
    }
  }

  /** Conversely, in a grounded registry a name that some reachable
      descriptor declares (or aliases) is always found. */
  lemma {:induction false} FindMemberComplete(reg: Registry, k: nat, h: Hash, fuel: nat, path: seq<nat>, dest: nat, offset: nat)
    requires k < |reg.descs| && Grounded(reg, k, fuel)
    requires dest < |reg.descs| && MemberChain(reg, k, path, dest, offset) && OwnMember(reg.descs[dest], h).Some?
    ensures FindMemberIn(reg, k, h, fuel).Ok? && FindMemberIn(reg, k, h, fuel).value.Some?
    decreases fuel, 1
  {
    SearchParentsGrounded(reg, k, h, 0, fuel - 1);
    if path != [] {
      SearchParentsComplete(reg, k, h, 0, fuel - 1, path, dest, offset);
    }
  }

  lemma {:induction false} SearchParentsComplete(reg: Registry, k: nat, h: Hash, i: nat, fuel: nat,
                                                 path: seq<nat>, dest: nat, offset: nat)
    requires k < |reg.descs| && i <= |reg.descs[k].parents|
    requires forall j :: 0 <= j < |reg.descs[k].parents| ==>
               ParentDesc(reg, k, j).Some? && Grounded(reg, ParentDesc(reg, k, j).value, fuel)
    requires path != [] && i <= path[0]
    requires dest < |reg.descs| && MemberChain(reg, k, path, dest, offset) && OwnMember(reg.descs[dest], h).Some?
    ensures SearchParents(reg, k, h, i, fuel).Ok? && SearchParents(reg, k, h, i, fuel).value.Some?
    decreases fuel, 2, |reg.descs[k].parents| - i
  {
    var pk := ParentDesc(reg, k, i).value;
    FindMemberGrounded(reg, pk, h, fuel);
    if i == path[0] {
      var p := reg.descs[k].parents[i];
      FindMemberComplete(reg, pk, h, fuel, path[1..], dest, offset - p.baseOffset);
    } else if FindMemberIn(reg, pk, h, fuel).value.None? {
      SearchParentsComplete(reg, k, h, i + 1, fuel, path, dest, offset);
    }
  }

  /** Without parents, `FindMember` is the descriptor's own lookup. */
  lemma FindMemberWithoutParents(reg: Registry, k: nat, h: Hash, fuel: nat)
    requires k < |reg.descs| && reg.descs[k].parents == [] && fuel > 0
    ensures OwnMember(reg.descs[k], h).None? ==> FindMemberIn(reg, k, h, fuel) == Ok(None)
    ensures OwnMember(reg.descs[k], h).Some? ==>
              FindMemberIn(reg, k, h, fuel) == Ok(Some(Found(k, OwnMember(reg.descs[k], h).value, 0)))
  {
  }

  // ---------------------------------------------------------------------
  // FindParentOffset

  /** Offsets reported by `FindParentOffset` are the sums along a chain of
      parent links that ends at a link to the target type. */
  lemma {:induction false} ParentOffsetSound(reg: Registry, k: nat, h: Hash, fuel: nat) returns (path: seq<nat>)
    requires k < |reg.descs|
    requires ParentOffsetIn(reg, k, h, fuel).Ok? && ParentOffsetIn(reg, k, h, fuel).value.Some?
    ensures var o := ParentOffsetIn(reg, k, h, fuel).value.value;
            LinkChain(reg, k, path, h, o.base, o.refl)
    decreases fuel, 1
  {
    match FindParent(reg.descs[k], h)
    case Some(i) =>
      path := [i];
    case None =>
      path := SearchParentOffsetsSound(reg, k, h, 0, fuel - 1);
  }

  lemma {:induction false} SearchParentOffsetsSound(reg: Registry, k: nat, h: Hash, i: nat, fuel: nat) returns (path: seq<nat>)
    requires k < |reg.descs| && i <= |reg.descs[k].parents|
    requires SearchParentOffsets(reg, k, h, i, fuel).Ok? && SearchParentOffsets(reg, k, h, i, fuel).value.Some?
    ensures var o := SearchParentOffsets(reg, k, h, i, fuel).value.value;
            LinkChain(reg, k, path, h, o.base, o.refl)
    decreases fuel, 2, |reg.descs[k].parents| - i
  {
    var pk := ParentDesc(reg, k, i).value;
    var r := ParentOffsetIn(reg, pk, h, fuel);
    if r.Ok? && r.value.Some? {
      var rest := ParentOffsetSound(reg, pk, h, fuel);
      path := [i] + rest;
      assert path[1..] == rest;
      assert |path| > 1;
    } else {
      path := SearchParentOffsetsSound(reg, k, h, i + 1, fuel);
    }
  }

  /** Conversely, in a grounded registry `FindParentOffset` reports "not
      found" only when no chain of parent links reaches the target. */
  lemma {:induction false} ParentOffsetComplete(reg: Registry, k: nat, h: Hash, fuel: nat,
                                                path: seq<nat>, base: nat, refl: nat)
    requires k < |reg.descs| && Grounded(reg, k, fuel)
    requires LinkChain(reg, k, path, h, base, refl)
    ensures ParentOffsetIn(reg, k, h, fuel).Ok? && ParentOffsetIn(reg, k, h, fuel).value.Some?
    decreases fuel, 1
  {
    if FindParent(reg.descs[k], h).None? {
      FindParentFirst(reg.descs[k], h);
      assert |path| > 1;
      SearchParentOffsetsGrounded(reg, k, h, 0, fuel - 1);
      SearchParentOffsetsComplete(reg, k, h, 0, fuel - 1, path, base, refl);
    }
  }

  lemma {:induction false} SearchParentOffsetsComplete(reg: Registry, k: nat, h: Hash, i: nat, fuel: nat,
                                                       path: seq<nat>, base: nat, refl: nat)
    requires k < |reg.descs| && i <= |reg.descs[k].parents|
    requires forall j :: 0 <= j < |reg.descs[k].parents| ==>
               ParentDesc(reg, k, j).Some? && Grounded(reg, ParentDesc(reg, k, j).value, fuel)
    requires |path| > 1 && i <= path[0]
    requires LinkChain(reg, k, path, h, base, refl)
    ensures SearchParentOffsets(reg, k, h, i, fuel).Ok? && SearchParentOffsets(reg, k, h, i, fuel).value.Some?
    decreases fuel, 2, |reg.descs[k].parents| - i
  {
    var pk := ParentDesc(reg, k, i).value;
    ParentOffsetGrounded(reg, pk, h, fuel);
    if i == path[0] {
      var p := reg.descs[k].parents[i];
      ParentOffsetComplete(reg, pk, h, fuel, path[1..], base - p.baseOffset, refl - p.reflOffset);
    } else if ParentOffsetIn(reg, pk, h, fuel).value.None? {
      SearchParentOffsetsComplete(reg, k, h, i + 1, fuel, path, base, refl);
    }
  }
}
