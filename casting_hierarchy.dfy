/** The multiple-inheritance hierarchy of the casting tests, laid out for a
    32-bit target (a `ReflClass` is one 4-byte hash):

      SimpleCastBaseClass   : ReflClass                 12 bytes
      SimpleCastBaseClass2  : ReflClass                 12 bytes
      SimpleCastBaseClass3  : SimpleCastBaseClass2      20 bytes
      ComplexInheritanceCastClass
                            : SimpleCastBaseClass (at 0),
                              SimpleCastBaseClass3 (at 12)

    and `SimpleOtherBaseClass : ReflClass`, registered but unrelated. The
    descriptors are as `ReflInitialize` leaves them (parents in declaration
    order); their members play no part in casting and are left empty. */
module CastingHierarchy {
  import opened Common
  import opened PrimitiveTable
  import opened ReflData
  import opened ReflLookup
  import opened ReflCasting

  const OtherName := "SimpleOtherBaseClass"
  const Base1Name := "SimpleCastBaseClass"
  const Base2Name := "SimpleCastBaseClass2"
  const Base3Name := "SimpleCastBaseClass3"
  const ComplexName := "ComplexInheritanceCastClass"

  /** The type hashes of the five classes. */
  datatype Names = Names(other: Hash, base1: Hash, base2: Hash, base3: Hash, complex: Hash)

  predicate Distinct(n: Names)
  {
    var hs := [n.other, n.base1, n.base2, n.base3, n.complex, ReflClassType];
    forall i, j :: 0 <= i < j < |hs| ==> hs[i] != hs[j]
  }

  const TestNames := Names(NameHash(OtherName), NameHash(Base1Name), NameHash(Base2Name),
                           NameHash(Base3Name), NameHash(ComplexName))

  lemma TestNamesDistinct()
    ensures Distinct(TestNames)
  {
    assert Fold(OtherName)[6] == 'o' && Fold(Base2Name)[6] == 'c' && Fold(Base3Name)[6] == 'c';
    assert Fold(Base2Name)[19] == '2' && Fold(Base3Name)[19] == '3';
  }

  function Plain(name: string, h: Hash, size: nat, creation: nat): Desc
  {
    Desc(name, h, 1, size, 0, 0, Some(creation), None, None, [], [], [], [])
  }

  /** Registration prepends, so the last class registered comes first:
      0 Complex, 1 Base3, 2 Base2, 3 Base1, 4 Other. */
  function Hierarchy(n: Names): Registry
  {
    Registry([
      Plain(ComplexName, n.complex, 40, 5).(parents := [Parent(0, 0, n.base1), Parent(12, 0, n.base3)]),
      Plain(Base3Name, n.base3, 20, 4).(parents := [Parent(0, 0, n.base2)]),
      Plain(Base2Name, n.base2, 12, 3),
      Plain(Base1Name, n.base1, 12, 2),
      Plain(OtherName, n.other, 12, 1)], [])
  }

  lemma DistinctPairs(n: Names)
    requires Distinct(n)
    ensures n.other != n.base1 && n.other != n.base2 && n.other != n.base3 && n.other != n.complex
    ensures n.base1 != n.base2 && n.base1 != n.base3 && n.base1 != n.complex
    ensures n.base2 != n.base3 && n.base2 != n.complex && n.base3 != n.complex
    ensures n.other != ReflClassType && n.base1 != ReflClassType && n.base2 != ReflClassType
    ensures n.base3 != ReflClassType && n.complex != ReflClassType
  {
    var hs := [n.other, n.base1, n.base2, n.base3, n.complex, ReflClassType];
    assert hs[0] != hs[1] && hs[0] != hs[2] && hs[0] != hs[3] && hs[0] != hs[4] && hs[0] != hs[5];
    assert hs[1] != hs[2] && hs[1] != hs[3] && hs[1] != hs[4] && hs[1] != hs[5];
    assert hs[2] != hs[3] && hs[2] != hs[4] && hs[2] != hs[5];
    assert hs[3] != hs[4] && hs[3] != hs[5] && hs[4] != hs[5];
  }

  lemma Descriptors(n: Names)
    requires Distinct(n)
    ensures GetClassDesc(Hierarchy(n), n.complex) == Some(0)
    ensures GetClassDesc(Hierarchy(n), n.base3) == Some(1)
    ensures GetClassDesc(Hierarchy(n), n.base2) == Some(2)
    ensures GetClassDesc(Hierarchy(n), n.base1) == Some(3)
    ensures GetClassDesc(Hierarchy(n), n.other) == Some(4)
  {
    DistinctPairs(n);
    var reg := Hierarchy(n);
    GetClassDescDirect(reg, 0);
    GetClassDescDirect(reg, 1);
    GetClassDescDirect(reg, 2);
    GetClassDescDirect(reg, 3);
    GetClassDescDirect(reg, 4);
  }

  /** The three classes without parents have no parent offsets. */
  lemma RootOffsets(n: Names, k: nat, h: Hash, fuel: nat)
    requires 2 <= k < 5 && fuel > 0
    ensures ParentOffsetIn(Hierarchy(n), k, h, fuel) == Ok(None)
  {
    assert Hierarchy(n).descs[k].parents == [];
  }

  lemma Base3Offsets(n: Names, h: Hash, fuel: nat)
    requires Distinct(n) && fuel > 1
    ensures ParentOffsetIn(Hierarchy(n), 1, h, fuel) ==
              if h == n.base2 then Ok(Some(Offsets(0, 0))) else Ok(None)
  {
    Descriptors(n);
    var reg := Hierarchy(n);
    RootOffsets(n, 2, h, fuel - 1);
    assert SearchParentOffsets(reg, 1, h, 1, fuel - 1) == Ok(None);
  }

  /** Where the parts of a `ComplexInheritanceCastClass` sit. */
  lemma ComplexOffsets(n: Names, h: Hash)
    requires Distinct(n)
    ensures FindParentOffset(Hierarchy(n), 0, h) ==
              if h == n.base1 then Ok(Some(Offsets(0, 0)))
              else if h == n.base3 || h == n.base2 then Ok(Some(Offsets(12, 0)))
              else Ok(None)
  {
    DistinctPairs(n);
    Descriptors(n);
    var reg := Hierarchy(n);
    var fuel := Depth(reg);
    assert fuel == 6;
    if h != n.base1 && h != n.base3 {
      var ps := reg.descs[0].parents;
      assert ps == [Parent(0, 0, n.base1), Parent(12, 0, n.base3)];
      assert ParentIndexFrom(ps, h, 2).None?;
      assert ParentIndexFrom(ps, h, 1).None?;
      assert FindParent(reg.descs[0], h).None?;
      RootOffsets(n, 3, h, fuel - 1);
      Base3Offsets(n, h, fuel - 1);
      assert SearchParentOffsets(reg, 0, h, 2, fuel - 1) == Ok(None);
      if h == n.base2 {
        assert SearchParentOffsets(reg, 0, h, 1, fuel - 1) == Ok(Some(Offsets(12, 0)));
      } else {
        assert SearchParentOffsets(reg, 0, h, 1, fuel - 1) == Ok(None);
      }
      assert SearchParentOffsets(reg, 0, h, 0, fuel - 1) == SearchParentOffsets(reg, 0, h, 1, fuel - 1);
    } else {
      assert reg.descs[0].parents[0].parentHash == n.base1;
      assert reg.descs[0].parents[1].parentHash == n.base3;
      FindParentFirst(reg.descs[0], h);
      assert FindParent(reg.descs[0], h) == if h == n.base1 then Some(0) else Some(1);
    }
  }

  /** The object built for a `ComplexInheritanceCastClass` at `d` has both
      of its `ReflClass` parts stamped with its type. */
  lemma ComplexStamps(n: Names, d: int)
    ensures StampAddresses(Hierarchy(n).descs[0], d) == [d, d + 12]
  {
  }

  /** The casts of the casting tests, from the primary `ReflClass` `d` of a
      `ComplexInheritanceCastClass` whose two `ReflClass` parts carry its
      stamp: to itself, to each base (the second and third bases share the
      part at 12), and to the unrelated class (NULL). */
  lemma CastsFromReflClass(n: Names, mem: Memory, d: int)
    requires Distinct(n)
    requires d != NullAddress
    requires GetType(mem, d) == n.complex
    ensures ReflCast(Hierarchy(n), mem, d, ReflClassType, n.complex) == Ok(d)
    ensures ReflCast(Hierarchy(n), mem, d, ReflClassType, n.other) == Ok(NullAddress)
    ensures ReflCast(Hierarchy(n), mem, d, ReflClassType, n.base1) == Ok(d)
    ensures ReflCast(Hierarchy(n), mem, d, ReflClassType, n.base2) == Ok(d + 12)
    ensures ReflCast(Hierarchy(n), mem, d, ReflClassType, n.base3) == Ok(d + 12)
  {
    DistinctPairs(n);
    Descriptors(n);
    ComplexOffsets(n, n.base1);
    ComplexOffsets(n, n.base2);
    ComplexOffsets(n, n.base3);
    ComplexOffsets(n, n.other);
  }

  /** From each base part back to the object's `ReflClass` and to the
      object itself: every route reaches the same address. */
  lemma CastsBackToObject(n: Names, mem: Memory, d: int)
    requires Distinct(n)
    requires d != NullAddress && d + 12 != NullAddress
    requires GetType(mem, d) == n.complex && GetType(mem, d + 12) == n.complex
    ensures ReflCast(Hierarchy(n), mem, d, n.base1, ReflClassType) == Ok(d)
    ensures ReflCast(Hierarchy(n), mem, d + 12, n.base2, ReflClassType) == Ok(d)
    ensures ReflCast(Hierarchy(n), mem, d + 12, n.base3, ReflClassType) == Ok(d)
    ensures ReflCast(Hierarchy(n), mem, d, n.base1, n.complex) == Ok(d)
    ensures ReflCast(Hierarchy(n), mem, d + 12, n.base2, n.complex) == Ok(d)
    ensures ReflCast(Hierarchy(n), mem, d + 12, n.base3, n.complex) == Ok(d)
  {
    DistinctPairs(n);
    Descriptors(n);
    ComplexOffsets(n, n.base1);
    ComplexOffsets(n, n.base2);
    ComplexOffsets(n, n.base3);
  }

  /** Across from one base part to another: each base is reached at the
      same address whichever base the cast starts from. */
  lemma CastsAcrossBases(n: Names, mem: Memory, d: int)
    requires Distinct(n)
    requires d != NullAddress && d + 12 != NullAddress
    requires GetType(mem, d) == n.complex && GetType(mem, d + 12) == n.complex
    ensures ReflCast(Hierarchy(n), mem, d + 12, n.base2, n.base1) == Ok(d)
    ensures ReflCast(Hierarchy(n), mem, d + 12, n.base3, n.base1) == Ok(d)
    ensures ReflCast(Hierarchy(n), mem, d, n.base1, n.base2) == Ok(d + 12)
    ensures ReflCast(Hierarchy(n), mem, d + 12, n.base3, n.base2) == Ok(d + 12)
    ensures ReflCast(Hierarchy(n), mem, d, n.base1, n.base3) == Ok(d + 12)
    ensures ReflCast(Hierarchy(n), mem, d + 12, n.base2, n.base3) == Ok(d + 12)
  {
    DistinctPairs(n);
    Descriptors(n);
    ComplexOffsets(n, n.base1);
    ComplexOffsets(n, n.base2);
    ComplexOffsets(n, n.base3);
  }

  /** The `const` cast as written returns NULL from the first base, which
      starts at offset 0 of the object; the non-const cast returns the
      object's `ReflClass`. */
  lemma ConstCastFromFirstBase(n: Names, mem: Memory, d: int)
    requires Distinct(n)
    requires d != NullAddress
    requires GetType(mem, d) == n.complex
    ensures ConstCastReflAsWritten(Hierarchy(n), 0, d, n.base1, ReflClassType) == Ok(NullAddress)
    ensures ConstReflCanCastToAsWritten(Hierarchy(n), d, GetType(mem, d), n.base1, ReflClassType) == Ok(NullAddress)
    ensures ReflCanCastTo(Hierarchy(n), d, GetType(mem, d), n.base1, ReflClassType) == Ok(d)
  {
    DistinctPairs(n);
    Descriptors(n);
    ComplexOffsets(n, n.base1);
    ComplexOffsets(n, n.base2);
    ComplexOffsets(n, n.base3);
    ComplexOffsets(n, n.other);
  }
}
