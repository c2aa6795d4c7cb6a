/** Casting between the sub-objects of one reflected object (newer engine).
    An object of descriptor `k` starts at `base`; each parent sub-object
    sits at a fixed offset from it and carries its own `ReflClass`
    sub-object. A cast computes the start of the requested sub-object from
    any pointer into the object, or NULL (0) when the object has no part of
    the requested type. */
module ReflCasting {
  import opened Common
  import opened PrimitiveTable
  import opened ReflData
  import opened ReflLookup
  import opened ReflLookupProps

  /** `ReflTypeDesc::CalculateCastOffset`: the offset of the `target`
      sub-object from the object's start; `None` when `target` is not part
      of the object. */
  function CalculateCastOffset(reg: Registry, k: nat, given: Hash, target: Hash): (r: Result<Option<int>>)
    requires k < |reg.descs|
    ensures r.Ok? && r.value.Some? ==> r.value.value >= 0
    ensures target == reg.descs[k].hash ==> r == Ok(Some(0))
  {
    var d := reg.descs[k];
    if target == d.hash then Ok(Some(0))
    else if given == d.hash && target == ReflClassType then Ok(Some(d.reflOffset + d.baseOffset))
    else if given != d.hash && given != ReflClassType && target == ReflClassType then
      Ok(Some(d.reflOffset + d.baseOffset))
    else
      match FindParentOffset(reg, k, target)
      case Fatal(reason) => Fatal(reason)
      case Ok(None) => Ok(None)
      case Ok(Some(o)) => Ok(Some(o.base))
  }

  /** `CastTo(void *, ...)`: the object's start moved by the cast offset;
      NULL when the target is not found or the start is NULL. */
  function CastVoid(reg: Registry, k: nat, base: int, given: Hash, target: Hash): (r: Result<int>)
    requires k < |reg.descs|
    ensures r.Ok? <==> CalculateCastOffset(reg, k, given, target).Ok?
    ensures r.Ok? && r.value != NullAddress ==>
              base != NullAddress && CalculateCastOffset(reg, k, given, target).value.Some? &&
              r.value == base + CalculateCastOffset(reg, k, given, target).value.value
  {
    match CalculateCastOffset(reg, k, given, target)
    case Fatal(reason) => Fatal(reason)
    case Ok(None) => Ok(NullAddress)
    case Ok(Some(offset)) => if base != NullAddress then Ok(base + offset) else Ok(NullAddress)
  }

  /** `CastTo(ReflClass *, ...)`: `inst` is the `ReflClass` of the `given`
      sub-object; the object's start is recovered from it (NULL when `given`
      is not part of the object) and then moved to the target. */
  function CastRefl(reg: Registry, k: nat, inst: int, given: Hash, target: Hash): (r: Result<int>)
    requires k < |reg.descs|
    ensures given != reg.descs[k].hash && given != ReflClassType && FindParentOffset(reg, k, given) == Ok(None) ==>
              r == Ok(NullAddress)
    ensures r.Ok? && r.value != NullAddress ==>
              CalculateCastOffset(reg, k, given, target).Ok? && CalculateCastOffset(reg, k, given, target).value.Some?
  {
    var d := reg.descs[k];
    if given != d.hash && given != ReflClassType then
      match FindParentOffset(reg, k, given)
      case Fatal(reason) => Fatal(reason)
      case Ok(None) => Ok(NullAddress)
      case Ok(Some(o)) =>
        var base := inst - o.base - o.refl;
        if base != NullAddress then CastVoid(reg, k, base, given, target) else Ok(NullAddress)
    else
      var base := CastToBase(d, inst);
      if base != NullAddress then CastVoid(reg, k, base, given, target) else Ok(NullAddress)
  }

  /** The `const` `CastTo(const ReflClass *, ...)` as written: the object's
      start is recovered only when the parent sits at a non-zero offset. */
  function ConstCastReflAsWritten(reg: Registry, k: nat, inst: int, given: Hash, target: Hash): (r: Result<int>)
    requires k < |reg.descs|
    ensures (given != reg.descs[k].hash && given != ReflClassType &&
             FindParentOffset(reg, k, given).Ok? && FindParentOffset(reg, k, given).value.Some? &&
             FindParentOffset(reg, k, given).value.value.base == 0) ==> r == Ok(NullAddress)
  {
    var d := reg.descs[k];
    if given != d.hash && given != ReflClassType then
      match FindParentOffset(reg, k, given)
      case Fatal(reason) => Fatal(reason)
      case Ok(None) => Ok(NullAddress)
      case Ok(Some(o)) =>
        if o.base != 0 then
          var base := inst - o.base - o.refl;
          if base != NullAddress then CastVoid(reg, k, base, given, target) else Ok(NullAddress)
        else Ok(NullAddress)
    else
      var base := CastToBase(d, inst);
      if base != NullAddress then CastVoid(reg, k, base, given, target) else Ok(NullAddress)
  }

  /** `ReflCanCastTo`: NULL when the actual type is not registered. */
  function ReflCanCastTo(reg: Registry, inst: int, actual: Hash, given: Hash, target: Hash): (r: Result<int>)
    ensures GetClassDesc(reg, actual).None? ==> r == Ok(NullAddress)
  {
    match GetClassDesc(reg, actual)
    case None => Ok(NullAddress)
    case Some(k) => CastRefl(reg, k, inst, given, target)
  }

  /** The `const` `ReflCanCastTo` as written, through the `const` cast. */
  function ConstReflCanCastToAsWritten(reg: Registry, inst: int, actual: Hash, given: Hash, target: Hash): (r: Result<int>)
    ensures GetClassDesc(reg, actual).None? ==> r == Ok(NullAddress)
  {
    match GetClassDesc(reg, actual)
    case None => Ok(NullAddress)
    case Some(k) => ConstCastReflAsWritten(reg, k, inst, given, target)
  }

  /** The `given` part is a parent found at offset 0 of the object: the
      case the `const` cast's extra test singles out. */
  predicate ZeroOffsetPart(reg: Registry, k: nat, given: Hash)
    requires k < |reg.descs|
  {
    given != reg.descs[k].hash && given != ReflClassType &&
    FindParentOffset(reg, k, given).Ok? && FindParentOffset(reg, k, given).value.Some? &&
    FindParentOffset(reg, k, given).value.value.base == 0
  }

  // ---------------------------------------------------------------------
  // The type stamp every ReflClass carries

  /** `ReflClass::GetType`: the stamp in the `ReflClass` at `inst`; a
      `ReflClass` nobody stamped still has the hash its constructor set. */
  function GetType(mem: Memory, inst: int): (h: Hash)
    ensures (inst !in mem || !mem[inst].Stamp?) ==> h == ReflClassType
    ensures inst in mem && mem[inst].Stamp? ==> h == mem[inst].h
  {
    if inst in mem && mem[inst].Stamp? then mem[inst].h else ReflClassType
  }

  /** `ReflCast<t_cast>(t_given *)`: NULL for a NULL pointer, otherwise the
      cast of the object whose actual type the pointer's stamp names.
      `inst` is the address of the `ReflClass` inside the `given` part. */
  function ReflCast(reg: Registry, mem: Memory, inst: int, given: Hash, target: Hash): (r: Result<int>)
  {
    if inst == NullAddress then Ok(NullAddress)
    else ReflCanCastTo(reg, inst, GetType(mem, inst), given, target)
  }

  /** The addresses `InitInst` stamps for an object of `d` at `inst`: the
      `ReflClass` of each parent, or the object's start without parents. */
  function StampAddresses(d: Desc, inst: int): (r: seq<int>)
    ensures d.parents == [] ==> r == [inst]
    ensures d.parents != [] ==>
              |r| == |d.parents| &&
              forall i :: 0 <= i < |d.parents| ==> r[i] == inst + d.parents[i].baseOffset + d.parents[i].reflOffset
  {
    if d.parents == [] then [inst]
    else seq(|d.parents|, i requires 0 <= i < |d.parents| => inst + d.parents[i].baseOffset + d.parents[i].reflOffset)
  }

  /** The memory an object lives in. */
  class Heap {
    var cells: Memory

    constructor (cells: Memory)
      ensures this.cells == cells
    {
      this.cells := cells;
    }

    /** `ReflClass::SetTypeHash`. */
    method SetTypeHash(inst: int, h: Hash)
      modifies this
      ensures cells == old(cells)[inst := Stamp(h)]
      ensures GetType(cells, inst) == h
    {
      cells := cells[inst := Stamp(h)];
    }

    /** `ReflTypeDesc::InitInst`: every `ReflClass` of the object now names
        `d`, and no other cell changes. */
    method InitInst(d: Desc, inst: int)
      modifies this
      ensures forall a :: a in StampAddresses(d, inst) ==> a in cells && cells[a] == Stamp(d.hash)
      ensures forall a :: a !in StampAddresses(d, inst) ==> (a in cells <==> a in old(cells))
      ensures forall a :: a !in StampAddresses(d, inst) && a in cells ==> cells[a] == old(cells)[a]
    {
      var addresses := StampAddresses(d, inst);
      var i := 0;
      while i < |addresses|
        invariant 0 <= i <= |addresses|
        invariant forall j :: 0 <= j < i ==> addresses[j] in cells && cells[addresses[j]] == Stamp(d.hash)
        invariant forall a :: a !in addresses ==> (a in cells <==> a in old(cells))
        invariant forall a :: a !in addresses && a in cells ==> cells[a] == old(cells)[a]
      {
        SetTypeHash(addresses[i], d.hash);
        i := i + 1;
      }
    }

    /** `ReflInitType`: stamps the object when its type is registered. */
    method ReflInitType(reg: Registry, inst: int, h: Hash)
      modifies this
      ensures GetClassDesc(reg, h).None? ==> cells == old(cells)
      ensures GetClassDesc(reg, h).Some? ==>
                forall a :: a in StampAddresses(reg.descs[GetClassDesc(reg, h).value], inst) ==> GetType(cells, a) == reg.descs[GetClassDesc(reg, h).value].hash
    {
      var k := GetClassDesc(reg, h);
      if k.Some? {
        InitInst(reg.descs[k.value], inst);
      }
    }
  }

  // ---------------------------------------------------------------------
  // What casting promises

  /** A found cast offset is the object's own start, the start of its
      primary `ReflClass`, or the end of a chain of parent links to the
      target type. */
  lemma CastOffsetSound(reg: Registry, k: nat, given: Hash, target: Hash) returns (path: seq<nat>, refl: nat)
    requires k < |reg.descs|
    requires CalculateCastOffset(reg, k, given, target).Ok? && CalculateCastOffset(reg, k, given, target).value.Some?
    ensures var o := CalculateCastOffset(reg, k, given, target).value.value;
            (target == reg.descs[k].hash && o == 0) ||
            (target == ReflClassType && o == reg.descs[k].reflOffset + reg.descs[k].baseOffset) ||
            (o >= 0 && LinkChain(reg, k, path, target, o, refl))
  {
    var d := reg.descs[k];
    path, refl := [], 0;
    if target == d.hash || (target == ReflClassType && (given == d.hash || given != ReflClassType)) {
    } else {
      path := ParentOffsetSound(reg, k, target, Depth(reg));
      refl := FindParentOffset(reg, k, target).value.value.refl;
    }
  }

  /** Conversely, in a grounded registry the cast offset is found whenever
      the target is the object's type, its `ReflClass` reached from a typed
      pointer, or the end of some chain of parent links. */
  lemma CastOffsetComplete(reg: Registry, k: nat, given: Hash, target: Hash, path: seq<nat>, base: nat, refl: nat)
    requires k < |reg.descs| && Grounded(reg, k, Depth(reg))
    requires target == reg.descs[k].hash || (target == ReflClassType && given != ReflClassType) ||
             LinkChain(reg, k, path, target, base, refl)
    ensures CalculateCastOffset(reg, k, given, target).Ok?
    ensures CalculateCastOffset(reg, k, given, target).value.Some?
  {
    ParentOffsetGrounded(reg, k, target, Depth(reg));
    if target != reg.descs[k].hash && !(target == ReflClassType && given != ReflClassType) {
      ParentOffsetComplete(reg, k, target, Depth(reg), path, base, refl);
    }
  }

  /** The offset does not depend on which typed part of the object the cast
      starts from, as long as that part is not a bare `ReflClass`. */
  lemma CastOffsetIndependentOfGiven(reg: Registry, k: nat, given1: Hash, given2: Hash, target: Hash)
    requires k < |reg.descs| && given1 != ReflClassType && given2 != ReflClassType
    ensures CalculateCastOffset(reg, k, given1, target) == CalculateCastOffset(reg, k, given2, target)
  {
  }

  /** Starting from the `ReflClass` of any parent part, the cast recovers
      the object's start and casts from there: the result is the same as
      from any other typed part of the same object. */
  lemma CastFromAnyPart(reg: Registry, k: nat, base: int, given: Hash, other: Hash, target: Hash)
    requires k < |reg.descs| && base != NullAddress
    requires given != reg.descs[k].hash && given != ReflClassType && other != ReflClassType
    requires FindParentOffset(reg, k, given).Ok? && FindParentOffset(reg, k, given).value.Some?
    ensures var o := FindParentOffset(reg, k, given).value.value;
            CastRefl(reg, k, base + o.base + o.refl, given, target) == CastVoid(reg, k, base, other, target)
  {
    CastOffsetIndependentOfGiven(reg, k, given, other, target);
  }

  /** Starting from the object's primary `ReflClass` gives the same result
      as starting from its own type, for any target but `ReflClass`. */
  lemma CastFromPrimaryReflClass(reg: Registry, k: nat, base: int, target: Hash)
    requires k < |reg.descs| && base != NullAddress
    requires reg.descs[k].hash != ReflClassType && target != ReflClassType
    ensures CastRefl(reg, k, CastToReflClass(reg.descs[k], base), ReflClassType, target)
         == CastVoid(reg, k, base, reg.descs[k].hash, target)
  {
    CastToBaseInverse(reg.descs[k], base);
  }

  /** A cast to the object's own type always yields its start. */
  lemma CastToOwnType(reg: Registry, k: nat, base: int, given: Hash)
    requires k < |reg.descs| && base != NullAddress
    ensures CastVoid(reg, k, base, given, reg.descs[k].hash) == Ok(base)
  {
  }

  /** `ReflCast` never asserts when the parent links of the object's actual
      type resolve without a cycle: a NULL pointer and an unregistered
      actual type give NULL, and so does a target the object lacks. */
  lemma ReflCastNeverAsserts(reg: Registry, mem: Memory, inst: int, given: Hash, target: Hash)
    requires GetClassDesc(reg, GetType(mem, inst)).Some? ==>
               Grounded(reg, GetClassDesc(reg, GetType(mem, inst)).value, Depth(reg))
    ensures ReflCast(reg, mem, inst, given, target).Ok?
    ensures inst == NullAddress ==> ReflCast(reg, mem, inst, given, target) == Ok(NullAddress)
    ensures GetClassDesc(reg, GetType(mem, inst)).None? ==> ReflCast(reg, mem, inst, given, target) == Ok(NullAddress)
  {
    if inst != NullAddress && GetClassDesc(reg, GetType(mem, inst)).Some? {
      var k := GetClassDesc(reg, GetType(mem, inst)).value;
      ParentOffsetGrounded(reg, k, given, Depth(reg));
      ParentOffsetGrounded(reg, k, target, Depth(reg));
    }
  }

  /** The `const` cast as written loses every part that starts at offset 0
      of the object, where the non-const cast finds it. */
  lemma ConstCastLosesZeroOffsetParts(reg: Registry, k: nat, base: int, given: Hash, target: Hash)
    requires k < |reg.descs| && base != NullAddress
    requires given != reg.descs[k].hash && given != ReflClassType
    requires FindParentOffset(reg, k, given).Ok? && FindParentOffset(reg, k, given).value.Some?
    requires FindParentOffset(reg, k, given).value.value.base == 0
    requires CalculateCastOffset(reg, k, given, target).Ok? && CalculateCastOffset(reg, k, given, target).value.Some?
    ensures var o := FindParentOffset(reg, k, given).value.value;
            ConstCastReflAsWritten(reg, k, base + o.refl, given, target) == Ok(NullAddress) &&
            CastRefl(reg, k, base + o.refl, given, target) == Ok(base + CalculateCastOffset(reg, k, given, target).value.value)
  {
  }

  /** The `const` cast as written and the non-const cast differ exactly on
      a part at offset 0 of the object that the non-const cast finds: every
      other input gives both the same result, and on such a part the `const`
      cast returns NULL. */
  lemma ConstCastDiffersExactlyAtZeroOffset(reg: Registry, k: nat, inst: int, given: Hash, target: Hash)
    requires k < |reg.descs|
    ensures ConstCastReflAsWritten(reg, k, inst, given, target) != CastRefl(reg, k, inst, given, target) <==>
            ZeroOffsetPart(reg, k, given) && CastRefl(reg, k, inst, given, target) != Ok(NullAddress)
    ensures ZeroOffsetPart(reg, k, given) ==> ConstCastReflAsWritten(reg, k, inst, given, target) == Ok(NullAddress)
  {
  }
}
