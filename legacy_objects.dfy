/** The mutable objects of the older engine: `ReflClassDesc`, whose lists
    the registration macros prepend to and whose `Finalize` reverses them in
    place, and `ReflLibrary`, the global descriptor and class-alias lists,
    which finalizes each descriptor as it is registered. A `ReflMember` lives
    as a value in its descriptor's member list; what the C++ code does to
    one member object is done here by its descriptor, given the member's
    position. */
module LegacyObjects {
  import opened Common
  import opened PrimitiveTable
  import opened ReflData
  import opened LegacyData
  import opened LegacyStreamRead
  import opened Stream
  import ReflObjects

  class LegacyClassDesc {
    var name: string
    var hash: Hash
    var size: nat
    var creationFunc: nat
    var finalizeFunc: Option<nat>
    var parents: seq<LegacyParent>
    var members: seq<LegacyMember>
    var memberAliases: seq<Alias>

    /** The descriptor as a value, for the lookups. */
    function Info(): ClassDesc
      reads this
    {
      ClassDesc(name, hash, size, creationFunc, finalizeFunc, parents, members, memberAliases)
    }

    /** The static descriptor `REFL_IMPL_CLASS_BEGIN` builds. */
    constructor (name: string, size: nat, creationFunc: nat)
      ensures Info() == ConstructDesc(name, size, creationFunc)
    {
      this.name := name;
      this.hash := NameHash(name);
      this.size := size;
      this.creationFunc := creationFunc;
      this.finalizeFunc := None;
      this.parents := [];
      this.members := [];
      this.memberAliases := [];
    }

    method AddParent(p: LegacyParent)
      modifies this
      ensures Info() == old(Info()).(parents := [p] + old(parents))
    {
      parents := [p] + parents;
    }

    /** The `ReflMember` constructor, which settles the kind by scanning the
        type table and registers the new member with its container. */
    method DeclareMember(memberName: string, typeName: string, memberSize: nat, offset: nat)
      modifies this
      ensures Info() == old(Info()).(members := [ConstructMember(memberName, typeName, memberSize, offset)] + old(members))
    {
      var typeHash := NameHash(typeName);
      var index := DetermineKind(typeHash);
      members := [LegacyMember(memberName, NameHash(memberName), typeHash, index, memberSize, offset, [], None)] + members;
    }

    /** The constructor's loop over the table: the first entry whose type
        name hashes to `typeHash`, CLASS when none does. */
    static method DetermineKind(typeHash: Hash) returns (k: Kind)
      ensures k == KindOf(typeHash)
    {
      var i := 0;
      while i < |Table|
        invariant 0 <= i <= |Table|
        invariant FirstEntry(typeHash, 0) == FirstEntry(typeHash, i)
      {
        if TypeHash(Table[i]) == typeHash {
          return Table[i];
        }
        i := i + 1;
      }
      return Class;
    }

    /** `RegisterEnumValue` on member `i`. */
    method RegisterEnumValue(i: nat, v: EnumValue)
      requires i < |members|
      modifies this
      ensures Info() == old(Info()).(members := old(members)[i := old(members)[i].(enumValues := [v] + old(members)[i].enumValues)])
    {
      members := members[i := members[i].(enumValues := [v] + members[i].enumValues)];
    }

    /** `RegisterConversionFunc` on member `i`: at most one per member. */
    method RegisterConversionFunc(i: nat, func: nat) returns (s: Status)
      requires i < |members|
      modifies this
      ensures old(members[i].convFunc).None? ==>
                s == Completed && Info() == old(Info()).(members := old(members)[i := old(members)[i].(convFunc := Some(func))])
      ensures old(members[i].convFunc).Some? ==> s == Aborted(ReflObjects.ConversionFuncSet) && Info() == old(Info())
    {
      if members[i].convFunc.Some? {
        return Aborted(ReflObjects.ConversionFuncSet);
      }
      members := members[i := members[i].(convFunc := Some(func))];
      return Completed;
    }

    method RegisterMemberAlias(a: Alias)
      modifies this
      ensures Info() == old(Info()).(memberAliases := [a] + old(memberAliases))
    {
      memberAliases := [a] + memberAliases;
    }

    method RegisterFinalizationFunc(func: nat) returns (s: Status)
      modifies this
      ensures old(finalizeFunc).None? ==> s == Completed && Info() == old(Info()).(finalizeFunc := Some(func))
      ensures old(finalizeFunc).Some? ==> s == Aborted(ReflObjects.FinalizeFuncSet) && Info() == old(Info())
    {
      if finalizeFunc.Some? {
        return Aborted(ReflObjects.FinalizeFuncSet);
      }
      finalizeFunc := Some(func);
      return Completed;
    }

    /** `Finalize`: the parent list reversed by moving one link at a time to
        the front of the new list, then the member list the same way, each
        member's enum values reversed as it moves. */
    method Finalize()
      modifies this
      ensures Info() == Finalized(old(Info()))
    {
      ghost var d := Info();
      var ps := ReverseList(parents);
      parents := ps;
      var ms: seq<LegacyMember> := [];
      var i := 0;
      while i < |members|
        invariant 0 <= i <= |members| && Info() == d.(parents := ps)
        invariant |ms| == i && forall j :: 0 <= j < i ==> ms[j] == FinalizedMember(members[i - 1 - j])
      {
        var es := ReverseList(members[i].enumValues);
        ms := [members[i].(enumValues := es)] + ms;
        i := i + 1;
      }
      members := ms;
      assert ms == Finalized(d).members;
    }

    /** The pointer-reversal loop over a singly linked list. */
    static method ReverseList<T>(xs: seq<T>) returns (r: seq<T>)
      ensures r == Reverse(xs)
    {
      r := [];
      var i := 0;
      while i < |xs|
        invariant 0 <= i <= |xs|
        invariant r == Reverse(xs[..i])
      {
        ReverseSnoc(xs[..i], xs[i]);
        assert xs[..i + 1] == xs[..i] + [xs[i]];
        r := [xs[i]] + r;
        i := i + 1;
      }
      assert xs[..i] == xs;
    }
  }

  /** Reversing a list with one more element at its end puts that element
      first. */
  lemma {:induction false} ReverseSnoc<T>(xs: seq<T>, x: T)
    ensures Reverse(xs + [x]) == [x] + Reverse(xs)
    decreases |xs|
  {
    if xs == [] {
      assert Reverse([x]) == Reverse([x][1..]) + [x];
    } else {
      assert (xs + [x])[1..] == xs[1..] + [x];
      ReverseSnoc(xs[1..], x);
    }
  }

  /** The distinct objects of `ds`, as values. */
  function Infos(ds: seq<LegacyClassDesc>): (r: seq<ClassDesc>)
    reads ds
    ensures |r| == |ds| && forall i :: 0 <= i < |ds| ==> r[i] == ds[i].Info()
  {
    if ds == [] then [] else [ds[0].Info()] + Infos(ds[1..])
  }

  /** `s_descHead` and `s_classAliasHead`. */
  class LegacyLibrary {
    var descs: seq<LegacyClassDesc>
    var aliases: seq<Alias>

    /** A descriptor object appears once in the list. */
    ghost predicate Valid()
      reads this
    {
      forall i, j :: 0 <= i < j < |descs| ==> descs[i] != descs[j]
    }

    function View(): Library
      reads this, descs
    {
      Library(Infos(descs), aliases)
    }

    constructor ()
      ensures Valid() && View() == Library([], [])
    {
      descs := [];
      aliases := [];
    }

    /** `RegisterClassDesc`: the descriptor becomes the new head of the
        list and is finalized there; no other descriptor changes. */
    method RegisterClassDesc(d: LegacyClassDesc)
      requires Valid() && d !in descs
      modifies this, d
      ensures Valid() && descs == [d] + old(descs)
      ensures View() == Library([Finalized(old(d.Info()))] + old(View().descs), old(aliases))
    {
      ghost var before := View().descs;
      descs := [d] + descs;
      d.Finalize();
      assert forall i :: 0 < i < |descs| ==> descs[i].Info() == before[i - 1];
      assert View().descs == [Finalized(old(d.Info()))] + before;
    }

    method RegisterClassDescAlias(a: Alias)
      requires Valid()
      modifies this
      ensures Valid() && descs == old(descs)
      ensures View() == Library(old(View().descs), [a] + old(aliases))
    {
      aliases := [a] + aliases;
    }

    /** `ReflLibrary::Deserialize(stream, memFlags)`: the sibling loop over
        the nodes from the cursor on, each read by `LoadClassNode` against
        the registered descriptors, starting from NULL; when the loop
        completes the cursor climbs to the node above. */
    method Deserialize(reader: TextReader, mem: Memory, hooks: Hooks) returns (r: Result<(Memory, int)>)
      requires reader.Valid()
      modifies reader
      ensures reader.Valid()
      ensures r == Visit(Loader(View(), hooks), Siblings(reader.document, old(reader.path)),
                         Position(old(reader.path)), (mem, NullAddress))
      ensures r.Ok? ==> reader.path == Above(old(reader.path))
    {
      var lib := View();
      r := VisitSiblings(reader, Loader(lib, hooks), (mem, NullAddress));
      if r.Ok? {
        var e := reader.ReadParentNode();
      }
    }
  }
}
