# game-riff reflection core in Dafny

This project models the run-time reflection engine of the game-riff engine
and proves properties of it. The model covers:

- **Type descriptors** (`ReflTypeDesc`, and `ReflClassDesc` in the older
  engine). Each holds its parents, members, member aliases and enum values.
  Descriptors are kept in a global registry with class aliases. Finalizing a
  descriptor reverses its declaration lists and checks them.
- **Lookups.** Finding a class by hash, following class aliases (one hop
  suffices after `ReflInitialize`, `ReflFinalize.AliasTakesOneHop`), a member by name
  (local, then aliased, then through the parents) and a parent, and counting
  members.
- **Casting.** Pointer casts across a multiple-inheritance hierarchy, using
  the offsets the descriptors record. The `ReflClass` type stamp written into
  every object tells the engine an object's actual type.
- **Text marshalling** of primitive members. Booleans and the eight integer
  kinds are modelled at their bit widths; enums go through their registered
  names.
- **Serialization and deserialization** of objects to and from a structured
  text stream. The stream is a tree of `Class`, `BaseClass` and `DataMember`
  nodes. Reading includes versioning, conversion callbacks and temporary
  bindings.
- **Intrusive reference counting**: `RefCounted` and `SmartPtr`.
- **`MemFlags`**: the allocator flags packed into one 32-bit word.

Both generations of the reflection engine are modelled.

- **The newer engine** is the `Refl*` modules. Its sources are
  `trunk/Code/Libs/Reflection/Reflection.cpp` and
  `Code/Libs/Reflection/Reflection.h`.
- **The older engine** is the `Legacy*` modules. Its sources are
  `Code/Libs/Reflection/Reflection.cpp` and
  `trunk/Code/Libs/Reflection/Reflection.h`.
  - `LegacyAgreement` embeds the older descriptors into the newer registry.
  - It proves that the two engines' lookups agree, so the lookup properties
    proved for the newer engine carry over.

Modelling conventions:

- **Aborts.** An assertion that stops the program (`ASSERTMSGGR`) is a
  `Fatal(reason)` result, or an `Aborted(reason)` status.
- **Name hashes.** A name hash is the name folded to lower case. Distinct
  folded names never collide.
- **Memory** is a map from addresses to cells. A cell holds an integer or a
  type stamp.
- **Round trip.** `ReflCells.ObjectCells` is the set of cells an object's
  serialized tree covers. `ReflCells.Overlay` is a storage with those cells
  taken from the object written and every other cell left as it was. The
  round-trip lemmas prove that reading back gives exactly that storage.
- **Callbacks.** Creation, finalization, conversion and versioning callbacks
  are parameters. So are the marshalers of the floating-point and string
  kinds.
- **Recursion bound.** Recursion over parent links carries fuel equal to the
  number of descriptors plus one. Running out of fuel stands for the endless
  recursion a cyclic hierarchy would cause. Following class aliases carries
  a hop count the same way.
- **State changes** are modelled imperatively. The objects the source updates
  in place are classes: `ReflTypeDesc`, `ReflLibrary`, `LegacyClassDesc`,
  `LegacyLibrary`, `Heap`, `RefCounted`, `SmartPtr`, and the stream's
  `TextWriter` and `TextReader`. The reading loops are methods with loop
  invariants. Each method is proved against the pure function that specifies
  it.

## Model

| member | source | states |
|---|---|---|
| Common.NameHashIgnoresCase | Code/Libs/Hash/UnitTests/StringHash_unittest.cpp:45-73 | two names hash alike exactly when they agree after folding to lower case |
| Common.EqualWithinIgnoresTail | trunk/Code/Core/Str.cpp:65-74 | a bounded comparison against a name no longer than the bound succeeds exactly when that name is a prefix and the other string ends there or the bound is reached |
| MemFlagsModel.Pack | Code/Core/Mem.h:94-98 | every field of the packed word reads back the value stored in it |
| MemFlagsModel.MakeFlags | Code/Core/Mem.h:64-71 | the two-argument constructor is the three-argument one with the default alignment |
| MemFlagsModel.GetArena | Code/Core/Mem.h:81-83 | the arena read back is below 16 (a 4-bit field) |
| MemFlagsModel.GetAlignment | Code/Core/Mem.h:85-87 | the alignment read back is below 8 (a 3-bit field) |
| MemFlagsModel.GetCategory | Code/Core/Mem.h:89-91 | the category read back is below 128 (a 7-bit field) |
| MemFlagsModel.EnumeratorsFit | Code/Core/Mem.h:34-60 | every arena, alignment and category enumerator fits the field that stores it |
| MemFlagsModel.AlignedFlagsRoundTrip | Code/Core/Mem.h:72-91 | the getters return the arena, category and alignment given to the constructor, and OOM-safe is clear |
| MemFlagsModel.FlagsRoundTrip | Code/Core/Mem.h:64-91 | the getters return the arena and category given, the default alignment, and OOM-safe clear |
| MemFlagsModel.AlignedFlagsInjective | Code/Core/Mem.h:72-99 | two flag words are equal exactly when they were built from the same arena, category and alignment |
| PrimitiveTable.TypeHashIsNameHash | trunk/Code/Libs/Reflection/Reflection.cpp:80-85 | a table entry's type hash is the hash of its type name |
| PrimitiveTable.DetermineTypeIndex | trunk/Code/Libs/Reflection/Reflection.cpp:478-494 | an index found has the given type hash |
| PrimitiveTable.DetermineTypeIndexNone | trunk/Code/Libs/Reflection/Reflection.cpp:478-494 | the end marker comes back exactly when no table entry has the given hash |
| PrimitiveTable.DetermineTypeIndexOfTypeName | trunk/Code/Libs/Reflection/Reflection.cpp:266-295 | looking up a kind's own type hash finds that kind |
| PrimitiveTable.TypeHashInjective | trunk/Code/Libs/Reflection/Reflection.cpp:266-295 | two kinds with the same type hash are the same kind |
| PrimitiveTable.DistinctFoldedNames | trunk/Code/Libs/Reflection/Reflection.cpp:266-295 | type names of different kinds differ even ignoring case |
| PrimitiveTable.GetTypeName | trunk/Code/Libs/Reflection/Reflection.cpp:106-113 | a non-enum kind writes its table name; an enum writes its descriptor's name, and aborts exactly when that descriptor is unregistered |
| PrimitiveTable.Wrap | trunk/Code/Libs/Reflection/Reflection.cpp:155-167 | truncation to the kind's width lands in the kind's range and is congruent to the value modulo two to the width |
| PrimitiveTable.WrapInRange | trunk/Code/Libs/Reflection/Reflection.cpp:155-167 | a value already in range is left unchanged by truncation |
| PrimitiveTable.ValueText | trunk/Code/Libs/Reflection/Reflection.cpp:143-167 | writing aborts exactly for the kinds with no format; a boolean writes true or false; an integer writes the decimal of its stored bits at its width |
| PrimitiveTable.ParseValue | trunk/Code/Libs/Reflection/Reflection.cpp:198-227 | reading aborts exactly for the kinds with no format; a read integer is within the kind's range, or the old value is kept for the wider kinds |
| PrimitiveTable.IntegralRoundTrip | trunk/Code/Libs/Reflection/Reflection.cpp:143-227 | every value an integral member can hold survives being written as text and read back |
| PrimitiveTable.BoolParse | trunk/Code/Libs/Reflection/Reflection.cpp:205-211 | a boolean reads true exactly when its text starts with the four characters "true", compared case-sensitively; otherwise it reads false |
| PrimitiveTable.ParseFailure | trunk/Code/Libs/Reflection/Reflection.cpp:198-227 | text without a number stores the truncated uninitialised local into an 8-bit member and leaves a wider member unchanged |
| TextFormat.DigitChar | trunk/Code/Libs/Reflection/Reflection.cpp:266-295 | the digit printed for a value below 16 is a hexadecimal digit worth that value, and a decimal digit when the value is below 10 |
| TextFormat.Digits | trunk/Code/Libs/Reflection/Reflection.cpp:266-295 | printed digits are non-empty and all digits of the base |
| TextFormat.DigitRun | trunk/Code/Libs/Reflection/Reflection.cpp:198-202 | the digits read are the longest digit prefix of the text |
| TextFormat.ValueOfDigits | trunk/Code/Libs/Reflection/Reflection.cpp:266-295 | the printed digits of a number are worth that number |
| TextFormat.DigitRunOfDigits | trunk/Code/Libs/Reflection/Reflection.cpp:198-202 | reading a string made of digits takes all of it |
| TextFormat.ParseSignedOfDigits | trunk/Code/Libs/Reflection/Reflection.cpp:198-202 | reading an optional minus sign and digits gives their signed value |
| TextFormat.DecimalRoundTrip | trunk/Code/Libs/Reflection/Reflection.cpp:143-202 | reading back the decimal text of an integer gives the integer |
| TextFormat.HexRoundTrip | trunk/Code/Libs/Reflection/Reflection.cpp:1176-1192 | reading back the hexadecimal version text gives the version |
| Stream.SetAttribute | trunk/Code/Libs/Stream/XMLStream.cpp:199-215 | setting an attribute makes it read back its new value and leaves every other key's value unchanged |
| Stream.Siblings | trunk/Code/Libs/Stream/XMLStream.cpp:228-240 | the node under the cursor is at its position among its siblings |
| Stream.ChildPath | trunk/Code/Libs/Stream/XMLStream.cpp:258-270 | after stepping to a child, the node above is the old node, and the siblings are that node's children |
| Stream.VisitSiblings | trunk/Code/Libs/Reflection/Reflection.cpp:1265-1288 | the do/while over the cursor and its later siblings gives the step applied in turn to each sibling from the cursor on, stopping at the first failure; when it completes, the cursor is on the last sibling |
| Stream.TextWriter.constructor | trunk/Code/Libs/Stream/XMLStream.cpp:86-94 | a new writer has only the open document |
| Stream.TextWriter.WriteNode | trunk/Code/Libs/Stream/XMLStream.cpp:151-169 | a new empty node is opened inside the current one and becomes current |
| Stream.TextWriter.WriteNodeAttribute | trunk/Code/Libs/Stream/XMLStream.cpp:199-215 | the current node gains the attribute, and nothing else changes |
| Stream.TextWriter.WriteNodeValue | trunk/Code/Libs/Stream/XMLStream.cpp:172-188 | the current node gets the text, and nothing else changes |
| Stream.TextWriter.EndNode | trunk/Code/Libs/Stream/XMLStream.cpp:191-196 | the current node is closed and appended to its parent's children, and the parent becomes current |
| Stream.TextReader.constructor | trunk/Code/Libs/Stream/XMLStream.cpp:107-127 | an opened reader's cursor is on the first top-level node |
| Stream.TextReader.ReadNodeName | trunk/Code/Libs/Stream/XMLStream.cpp:218-225 | returns the current node's name and OK |
| Stream.TextReader.ReadNodeValue | trunk/Code/Libs/Stream/Stream.h:84 | returns the current node's text and OK |
| Stream.TextReader.ReadNodeAttribute | trunk/Code/Libs/Stream/Stream.h:85-90 | returns the attribute's last written value and OK; a missing attribute is reported as NODEDOESNTEXIST with empty text |
| Stream.TextReader.ReadChildNode | trunk/Code/Libs/Stream/XMLStream.cpp:258-270 | moves to the first child and returns OK when there is one; otherwise returns NODEDOESNTEXIST and stays |
| Stream.TextReader.ReadNextNode | trunk/Code/Libs/Stream/XMLStream.cpp:228-240 | returns OK exactly when there is a next sibling, and then moves to it; otherwise returns NODEDOESNTEXIST and stays |
| Stream.TextReader.ReadParentNode | trunk/Code/Libs/Stream/XMLStream.cpp:243-255 | moves to the parent and returns OK, except at the document, where it returns NODEDOESNTEXIST and stays |
| RefCounting.RefCounted.constructor | Code/Core/Ref.h:37-40 | a new object has no references and is not deleted |
| RefCounting.RefCounted.AddRef | Code/Core/Ref.h:42-46 | returns the count before the increment, and the count goes up by one |
| RefCounting.RefCounted.ReleaseRef | Code/Core/Ref.h:47-52 | returns the count before the decrement; a zero count aborts, and a positive one goes down by one |
| RefCounting.Count | Code/Core/Ref.h:60-120 | the number of pointers holding an object is at most the number of pointers |
| RefCounting.CountUpdate | Code/Core/Ref.h:83-93 | retargeting one pointer moves one unit of count from its old object to its new one |
| RefCounting.CountPositiveAt | Code/Core/Ref.h:60-120 | an object some pointer holds is counted at least once |
| RefCounting.CountAppend | Code/Core/Ref.h:66-77 | a new pointer adds one to its own object's count only |
| RefCounting.CountTwo | Code/Core/Ref.h:60-120 | an object two pointers hold is counted at least twice |
| RefCounting.Retain | Code/Core/Ref.h:66-71 | taking a reference leaves which pointer holds what, and which objects are deleted, unchanged |
| RefCounting.ReleaseAt | Code/Core/Ref.h:112-120 | a release keeps the number of pointers |
| RefCounting.Construct | Code/Core/Ref.h:66-71 | constructing a pointer adds exactly one pointer, holding the given object |
| RefCounting.Destroy | Code/Core/Ref.h:79-81 | the destroyed pointer holds nothing afterwards, and every other pointer keeps its object |
| RefCounting.SoundHeld | Code/Core/Ref.h:35-56 | when every held object is alive and counted once per holder, a held object's count is positive |
| RefCounting.RetainSound | Code/Core/Ref.h:66-77 | an empty pointer taking a reference to an alive, correctly counted object keeps every count equal to its number of holders |
| RefCounting.ConstructSound | Code/Core/Ref.h:66-71 | constructing a pointer keeps every held object alive and counted once per holder |
| RefCounting.CopySound | Code/Core/Ref.h:72-77 | copying a pointer keeps every held object alive and counted once per holder |
| RefCounting.DestroySound | Code/Core/Ref.h:79-81 | destroying a pointer never hits the count assertion, and keeps every object still held alive and counted once per holder |
| RefCounting.AssignAsWrittenSound | Code/Core/Ref.h:83-93 | assignment as written never hits the count assertion, and keeps every held object alive and counted once per holder |
| RefCounting.SelfAssignClears | Code/Core/Ref.h:83-93 | assigning a pointer to itself leaves it NULL, and deletes its object when it was the only holder |
| RefCounting.AssignCorrected | Code/Core/Ref.h:83-93 | the corrected assignment changes nothing when a pointer is assigned to itself, and otherwise equals the one as written; it keeps the counts sound, and the pointer ends up holding what the other one held |
| RefCounting.AssignSelfUnchanged | Code/Core/Ref.h:83-93 | corrected self-assignment leaves every pointer, count and deletion unchanged |
| RefCounting.AssignOtherAsWritten | Code/Core/Ref.h:83-93 | from a different pointer, the corrected assignment and the one as written have the same effect |
| RefCounting.SharedSwap | Code/Core/Ref.h:83-93 | when two different pointers hold the same object with count at least 2, taking the new reference first or last comes to the same |
| RefCounting.DistinctSwap | Code/Core/Ref.h:83-93 | when the release and the new reference touch different objects, their order does not matter |
| RefCounting.AssignAsWritten | Code/Core/Ref.h:83-93 | `operator=` as written: the assigned pointer ends up holding what the other one held, except that a pointer assigned to itself ends up NULL |
| RefCounting.Assign | Code/Core/Ref.h:83-93 | corrected `operator=`: the assigned pointer always ends up holding what the other one held, every other pointer keeping its object |
| RefCounting.SmartPtr.constructor | Code/Core/Ref.h:66-71 | holds the given object and takes one reference to it unless it is NULL |
| RefCounting.SmartPtr.Copy | Code/Core/Ref.h:72-77 | holds what the other pointer holds and takes one more reference to it |
| RefCounting.SmartPtr.Release | Code/Core/Ref.h:112-120 | gives up one reference; the pointer that takes the count from 1 to 0 deletes the object and becomes NULL, and a zero count aborts |
| RefCounting.SmartPtr.Assign | Code/Core/Ref.h:83-93 | as written: the old object loses a reference, and the pointer then holds what the right-hand side holds, except that self-assignment leaves it NULL |
| RefCounting.SmartPtr.AssignFixed | Code/Core/Ref.h:83-93 | corrected: the pointer always ends up holding what the right-hand side held, and an object both hold keeps its count and is not deleted |
| RefCounting.SmartPtr.Arrow | Code/Core/Ref.h:95-98 | returns the held object, and aborts when it is NULL |
| RefCounting.SmartPtr.IsNull | Code/Core/Ref.h:100-102 | `operator==(NULL)` holds exactly when the pointer holds nothing, that is when `operator->` aborts |
| RefCounting.SmartPtr.Differs | Code/Core/Ref.h:108-110 | `operator!=`: a pointer never differs from itself, two NULL pointers do not differ, and pointers that do not differ are NULL together |
| ReflData.NewMember | trunk/Code/Libs/Reflection/Reflection.cpp:303-331 | registration succeeds exactly when the declared type is unknown to the table or its size is the table's size; the member keeps its name, type, size and offset, starts live, unconverted and unbound, and its kind is CLASS for an unknown type and otherwise the table entry of its type |
| ReflData.DeprecatedMember | Code/Libs/Reflection/Reflection.h:498-506 | a deprecated member registers exactly when the ordinary one would; it is marked deprecated, at offset 0, with the declared size |
| ReflData.CastToBaseInverse | trunk/Code/Libs/Reflection/Reflection.cpp:589-604 | shifting to the object start and back to its `ReflClass` is the identity, both ways round |
| ReflData.Create | Code/Libs/Reflection/Reflection.h:197 | creation succeeds exactly when a creation function is registered, and returns what that function returns |
| ReflLookup.DescIndex | trunk/Code/Libs/Reflection/Reflection.cpp:1302-1320 | a descriptor found is registered and has the hash looked up |
| ReflLookup.DescIndexFirst | trunk/Code/Libs/Reflection/Reflection.cpp:1302-1320 | the descriptor found is the first with that hash, and nothing is found only when no descriptor has it |
| ReflLookup.AliasIndexFirst | trunk/Code/Libs/Reflection/Reflection.cpp:1302-1320 | the class alias used is the first for that old hash, and none is used only when no alias has it |
| ReflLookup.GetClassDesc | trunk/Code/Libs/Reflection/Reflection.cpp:1302-1320 | a class found by `GetClassDesc` is a registered descriptor |
| ReflLookup.GetClassDescDirect | trunk/Code/Libs/Reflection/Reflection.cpp:1302-1320 | a registered hash always finds a descriptor with that hash, the first one registered under it |
| ReflLookup.GetClassDescAlias | trunk/Code/Libs/Reflection/Reflection.cpp:1302-1320 | a hash no descriptor has, but a class alias has, finds the first descriptor of the alias's new hash |
| ReflLookup.GetClassDescMiss | trunk/Code/Libs/Reflection/Reflection.cpp:1302-1320 | a hash that names no descriptor and no alias finds nothing |
| ReflLookup.FindLocalMember | trunk/Code/Libs/Reflection/Reflection.cpp:973-982 | an own member found has the name hash looked up |
| ReflLookup.FindLocalMemberFirst | trunk/Code/Libs/Reflection/Reflection.cpp:973-982 | the own member found is the first with that name, and nothing is found only when no own member has it |
| ReflLookup.OwnMember | trunk/Code/Libs/Reflection/Reflection.cpp:957-967 | the member a name means in the class itself: the own member of that name; failing that, the own member the first member alias for the name points to; otherwise none |
| ReflLookup.FindMemberIn | trunk/Code/Libs/Reflection/Reflection.cpp:944-970 | a member found exists in the descriptor reported, and a member found in the class searched itself lies at offset 0 unless the class has parents |
| ReflLookup.SearchParents | trunk/Code/Libs/Reflection/Reflection.cpp:947-955 | a member found through the parents exists where it is reported, and past the last parent nothing is found |
| ReflLookup.FindMember | trunk/Code/Libs/Reflection/Reflection.cpp:919-970 | a member found exists in the descriptor reported |
| ReflLookup.FindParent | trunk/Code/Libs/Reflection/Reflection.cpp:985-994 | a parent found is a direct parent with the hash looked up |
| ReflLookup.FindParentFirst | trunk/Code/Libs/Reflection/Reflection.cpp:985-994 | the parent found is the first with that hash, and nothing is found only when no direct parent has it |
| ReflLookup.ParentOffsetIn | trunk/Code/Libs/Reflection/Reflection.cpp:997-1023 | a direct parent reports its own base and `ReflClass` offsets |
| ReflLookup.EnumByValue | trunk/Code/Libs/Reflection/Reflection.cpp:1026-1036 | an enum entry found has the value looked up |
| ReflLookup.EnumByValueFirst | trunk/Code/Libs/Reflection/Reflection.cpp:1026-1036 | the entry found is the first with that value, and nothing is found only when no entry has it |
| ReflLookup.EnumByName | trunk/Code/Libs/Reflection/Reflection.cpp:1039-1049 | an enum entry found matches the text in its first `len` characters, ignoring case |
| ReflLookup.EnumByNameFirst | trunk/Code/Libs/Reflection/Reflection.cpp:1039-1049 | the entry found is the first that matches, and nothing is found only when no entry matches |
| ReflLookup.NumMembersIn | trunk/Code/Libs/Reflection/Reflection.cpp:1079-1097 | the member count of a class is at least its own number of members |
| ReflLookupProps.FindMemberGrounded | trunk/Code/Libs/Reflection/Reflection.cpp:944-970 | when every parent link reachable from the class resolves and no chain of them is longer than the fuel, `FindMember` never aborts |
| ReflLookupProps.ParentOffsetGrounded | trunk/Code/Libs/Reflection/Reflection.cpp:997-1023 | under the same condition, `FindParentOffset` never aborts or dereferences a missing parent |
| ReflLookupProps.NumMembersGrounded | trunk/Code/Libs/Reflection/Reflection.cpp:1079-1097 | under the same condition, `NumMembers` never aborts |
| ReflLookupProps.FindMemberSound | trunk/Code/Libs/Reflection/Reflection.cpp:944-970 | a member `FindMember` reports is what its descriptor's own lookup gives for the name, and that descriptor is reached through parent links whose base offsets add up to the reported offset |
| ReflLookupProps.FindMemberComplete | trunk/Code/Libs/Reflection/Reflection.cpp:944-970 | in a grounded hierarchy, a name that any descriptor reachable through parent links declares or aliases is always found |
| ReflLookupProps.FindMemberFuel | trunk/Code/Libs/Reflection/Reflection.cpp:944-970 | in a grounded hierarchy more recursion depth finds the same member, so the depth bound never cuts a lookup short |
| ReflLookupProps.FindMemberWithoutParents | trunk/Code/Libs/Reflection/Reflection.cpp:957-967 | for a class without parents, `FindMember` is the class's own lookup at offset 0 |
| ReflLookupProps.ParentOffsetSound | trunk/Code/Libs/Reflection/Reflection.cpp:997-1023 | the offsets `FindParentOffset` reports are the sums along a chain of parent links ending at a link to the target type |
| ReflLookupProps.ParentOffsetComplete | trunk/Code/Libs/Reflection/Reflection.cpp:997-1023 | in a grounded hierarchy, `FindParentOffset` reports "not found" only when no chain of parent links reaches the target |
| ReflBindings.Unbound | trunk/Code/Libs/Reflection/Reflection.cpp:734-741 | every member keeps everything but its binding, which is cleared |
| ReflBindings.SameShapeFindMember | Code/Libs/Reflection/Reflection.h:103-106 | bindings play no part in `FindMember`: registries that differ only in bindings find the same members |
| ReflBindings.SetBinding | trunk/Code/Libs/Reflection/Reflection.cpp:1133-1142 | binding changes the bound member's binding to the data, and no other member or descriptor |
| ReflBindings.BindingTarget | trunk/Code/Libs/Reflection/Reflection.cpp:1133-1142 | the member acted on is the one `FindMember` finds, exactly when its declared type is the given one; the lookup's abort is passed on |
| ReflBindings.BindThenLookUp | trunk/Code/Libs/Reflection/Reflection.cpp:744-749 | after binding, looking the member up again finds it bound to the data, and clearing with the same hashes clears that same member |
| ReflBindings.ClearLocal | trunk/Code/Libs/Reflection/Reflection.cpp:734-741 | clearing the own members' bindings as written changes nothing a lookup reads |
| ReflBindings.FoundInAncestors | trunk/Code/Libs/Reflection/Reflection.cpp:944-970 | every member `FindMember` finds lies in the class or in one of its ancestors |
| ReflBindings.ClearEach | trunk/Code/Libs/Reflection/Reflection.cpp:734-741 | clearing the bindings of a list of descriptors changes no descriptor's names, kinds, offsets, parents or aliases |
| ReflBindings.ClearEachClears | trunk/Code/Libs/Reflection/Reflection.cpp:734-741 | clearing a list of descriptors unbinds every member of each of them |
| ReflBindings.ClearReachable | trunk/Code/Libs/Reflection/Reflection.cpp:734-741 | the corrected clear changes nothing a lookup reads |
| ReflBindings.ClearReachableUnbinds | trunk/Code/Libs/Reflection/Reflection.cpp:1133-1142 | after the corrected clear, no member found from the class is bound |
| ReflBindings.ClearLocalMissesInherited | trunk/Code/Libs/Reflection/Reflection.cpp:734-741 | in a concrete hierarchy, binding an inherited field through the derived class binds the base's member; clearing as written leaves it bound, while the corrected clear unbinds it |
| ReflCasting.CalculateCastOffset | trunk/Code/Libs/Reflection/Reflection.cpp:607-659 | a cast offset found is never negative, and a cast to the object's own type has offset 0 |
| ReflCasting.CastVoid | trunk/Code/Libs/Reflection/Reflection.cpp:701-714 | the cast aborts exactly when the offset computation does; a non-NULL result is the non-NULL start moved by the offset found |
| ReflCasting.CastRefl | trunk/Code/Libs/Reflection/Reflection.cpp:662-677 | a pointer to a part the object does not have casts to NULL; a non-NULL result needs a cast offset found for the target |
| ReflCasting.ReflCanCastTo | trunk/Code/Libs/Reflection/Reflection.cpp:1213-1220 | an actual type that is not registered gives NULL |
| ReflCasting.ConstReflCanCastToAsWritten | trunk/Code/Libs/Reflection/Reflection.cpp:1223-1230 | the `const` `ReflCanCastTo` as written, through the `const` cast; an unregistered actual type gives NULL |
| ReflCasting.GetType | Code/Libs/Reflection/Reflection.h:298-302 | an object nobody stamped reports the `ReflClass` type its constructor set; a stamped one reports its stamp |
| ReflCasting.ConstCastReflAsWritten | trunk/Code/Libs/Reflection/Reflection.cpp:680-698 | as written: from the `ReflClass` of a parent part that starts at offset 0 of the object, the const cast returns NULL |
| ReflCasting.StampAddresses | trunk/Code/Libs/Reflection/Reflection.cpp:1058-1071 | `InitInst` stamps the `ReflClass` of each parent, at that parent's base plus `ReflClass` offset, or the object's start when it has no parents |
| ReflCasting.Heap.SetTypeHash | Code/Libs/Reflection/Reflection.h:305-307 | the `ReflClass` at the address now reads the hash, and no other cell changes |
| ReflCasting.Heap.InitInst | trunk/Code/Libs/Reflection/Reflection.cpp:1058-1071 | every `ReflClass` of the object names the descriptor's type, and no other cell changes |
| ReflCasting.Heap.ReflInitType | trunk/Code/Libs/Reflection/Reflection.cpp:1255-1259 | an unregistered type leaves memory unchanged; a registered one has every `ReflClass` of the object stamped with it |
| ReflCasting.CastOffsetSound | trunk/Code/Libs/Reflection/Reflection.cpp:607-659 | a cast offset found is the object's own start, the start of its primary `ReflClass`, or the sum of the base offsets along a chain of parent links to the target type |
| ReflCasting.CastOffsetComplete | trunk/Code/Libs/Reflection/Reflection.cpp:607-659 | in a grounded hierarchy, the offset is found whenever the target is the object's own type, its `ReflClass` reached from a typed pointer, or the end of a chain of parent links |
| ReflCasting.CastOffsetIndependentOfGiven | trunk/Code/Libs/Reflection/Reflection.cpp:607-659 | the offset does not depend on which typed part the cast starts from, unless that part is a bare `ReflClass` |
| ReflCasting.CastFromAnyPart | trunk/Code/Libs/Reflection/Reflection.cpp:662-677 | casting from the `ReflClass` of any parent part gives the same result as casting from any other typed part of the same object |
| ReflCasting.CastFromPrimaryReflClass | trunk/Code/Libs/Reflection/Reflection.cpp:662-677 | casting from the object's primary `ReflClass` gives the same result as casting from its own type, for any target but `ReflClass` |
| ReflCasting.CastToOwnType | trunk/Code/Libs/Reflection/Reflection.cpp:701-714 | a cast to the object's own type always yields the object's start |
| ReflCasting.ReflCastNeverAsserts | Code/Libs/Reflection/Reflection.h:343-365 | `ReflCast` never aborts when the parent links of the object's actual type resolve without a cycle; a NULL pointer and an unregistered actual type give NULL |
| ReflCasting.ConstCastLosesZeroOffsetParts | trunk/Code/Libs/Reflection/Reflection.cpp:680-698 | from every parent part at offset 0, the const cast as written returns NULL where the non-const cast returns the target part |
| ReflCasting.ConstCastDiffersExactlyAtZeroOffset | trunk/Code/Libs/Reflection/Reflection.cpp:680-698 | the `const` cast as written and the non-const cast differ exactly when the given part is a parent at offset 0 of the object and the non-const cast finds the target; on such a part the `const` cast gives NULL |
| CastingHierarchy.TestNamesDistinct | Code/Libs/Reflection/UnitTests/ReflectionCasting_UnitTest.cpp:384-428 | the five test class names have distinct hashes |
| CastingHierarchy.Descriptors | Code/Libs/Reflection/UnitTests/ReflectionCasting_UnitTest.cpp:384-428 | each test class is found at its registration position (the last registered first) |
| CastingHierarchy.RootOffsets | Code/Libs/Reflection/UnitTests/ReflectionCasting_UnitTest.cpp:384-428 | the three classes without parents have no parent offsets |
| CastingHierarchy.Base3Offsets | Code/Libs/Reflection/UnitTests/ReflectionCasting_UnitTest.cpp:384-403 | `SimpleCastBaseClass3` finds `SimpleCastBaseClass2` at offset 0, and nothing else |
| CastingHierarchy.ComplexOffsets | Code/Libs/Reflection/UnitTests/ReflectionCasting_UnitTest.cpp:405-428 | `ComplexInheritanceCastClass` finds its first base at 0, and its second and third bases at 12 |
| CastingHierarchy.ComplexStamps | Code/Libs/Reflection/UnitTests/ReflectionCasting_UnitTest.cpp:405-428 | the complex object's two `ReflClass` parts sit at its start and 12 bytes in |
| CastingHierarchy.CastsFromReflClass | Code/Libs/Reflection/UnitTests/ReflectionCasting_UnitTest.cpp:431-512 | from the object's `ReflClass`: the complex class and its first base are found at the start, the second and third bases at 12, and the unrelated class gives NULL |
| CastingHierarchy.CastsBackToObject | Code/Libs/Reflection/UnitTests/ReflectionCasting_UnitTest.cpp:514-591 | from each base part, the casts back to the object's `ReflClass` and to the complex class reach the object's start |
| CastingHierarchy.CastsAcrossBases | Code/Libs/Reflection/UnitTests/ReflectionCasting_UnitTest.cpp:431-591 | casting from one base part to another reaches each base at the same address whichever base the cast starts from |
| CastingHierarchy.ConstCastFromFirstBase | Code/Libs/Reflection/UnitTests/ReflectionCasting_UnitTest.cpp:514-591 | the const cast as written returns NULL from the first base, where the corrected const cast returns the object's `ReflClass` |
| ReflMarshal.StoredEnumValue | trunk/Code/Libs/Reflection/Reflection.cpp:170-182 | an enum member's stored value is read as a signed 32-bit integer |
| ReflMarshal.EnumTextAsWritten | trunk/Code/Libs/Reflection/Reflection.cpp:170-182 | as written: an unregistered enum type aborts, and the text exists exactly when the stored value's low byte is an enum value |
| ReflMarshal.EnumText | trunk/Code/Libs/Reflection/Reflection.cpp:170-182 | corrected: an unregistered enum type aborts; the text exists exactly when the whole stored value is an enum value, and it is the display name of an entry with that value |
| ReflMarshal.EnumParse | trunk/Code/Libs/Reflection/Reflection.cpp:230-242 | an unregistered enum type aborts; reading succeeds exactly when some entry's display name matches the text within the length, ignoring case, and stores a 32-bit value |
| ReflMarshal.MemberText | trunk/Code/Libs/Reflection/Reflection.cpp:523-555 | a member is written by its kind's marshaler, by enum name for an enum member |
| ReflMarshal.MemberParse | trunk/Code/Libs/Reflection/Reflection.cpp:396-442 | a member is read by its kind's marshaler, by enum name for an enum member |
| ReflMarshal.EnumRoundTrip | trunk/Code/Libs/Reflection/Reflection.cpp:170-242 | every enumerated value survives being written by name and read back, when names that match within the length carry the same value |
| ReflMarshal.MemberRoundTrip | trunk/Code/Libs/Reflection/Reflection.cpp:143-242 | every value a member of its kind can hold survives being written and read back, whatever the storage held before |
| ReflMarshal.EnumTextAgreesOnLowValues | trunk/Code/Libs/Reflection/Reflection.cpp:170-182 | for stored values 0 to 255, the low-byte lookup and the whole-value lookup write the same text |
| ReflMarshal.EnumLowByteLosesValue | trunk/Code/Libs/Reflection/Reflection.cpp:175 | for an enum with values 0 and 256, the value 256 is written as the name of 0 and reads back as 0; the corrected writer round-trips it |
| ReflFinalize.FinalizeMember | trunk/Code/Libs/Reflection/Reflection.cpp:497-504 | a member of a type the table does not know must name a registered descriptor, and otherwise finalizing aborts; its kind changes exactly when that descriptor is an enum, and then becomes enum; nothing else changes |
| ReflFinalize.FinalizeMembers | trunk/Code/Libs/Reflection/Reflection.cpp:867-875 | the member loop succeeds exactly when every member finalizes, and gives each member finalized, in place |
| ReflFinalize.DuplicatesFrom | trunk/Code/Libs/Reflection/Reflection.cpp:897-900 | a member passes the comparison with later members exactly when it differs from each by name (over 256 characters) and by hash |
| ReflFinalize.InheritedFrom | trunk/Code/Libs/Reflection/Reflection.cpp:902-905 | a member passes the parent check exactly when no parent finds its name |
| ReflFinalize.UniqueIff | trunk/Code/Libs/Reflection/Reflection.cpp:896-906 | the uniqueness pass succeeds exactly when the members are pairwise distinct and no parent reflects any of them |
| ReflFinalize.FinalizeDesc | trunk/Code/Libs/Reflection/Reflection.cpp:847-908 | finalizing keeps the names, version, size, callbacks and member aliases |
| ReflFinalize.FinalizeDescIff | trunk/Code/Libs/Reflection/Reflection.cpp:847-908 | finalizing succeeds exactly when the parents resolve, every member finalizes, and the reordered members are ordered, distinct and not reflected by a parent |
| ReflFinalize.FinalizedLists | trunk/Code/Libs/Reflection/Reflection.cpp:847-893 | after finalizing, the parents and enum values are reversed, the members are finalized and reversed, and the object offsets are those of the first parent |
| ReflFinalize.DeclarationOrder | trunk/Code/Libs/Reflection/Reflection.cpp:847-893 | since registration prepends, finalizing puts parents, enum values and members back in declaration order |
| ReflFinalize.FinalizedKinds | trunk/Code/Libs/Reflection/Reflection.cpp:497-504 | after finalizing, every class member names a registered descriptor that is not an enum |
| ReflFinalize.OrderedStrictly | trunk/Code/Libs/Reflection/Reflection.cpp:877-884 | without deprecated members, passing the order check means member offsets rise strictly along the whole list |
| ReflFinalize.FinalizeFrom | trunk/Code/Libs/Reflection/Reflection.cpp:1234-1236 | finalizing every descriptor keeps the number of descriptors, the class aliases, and every descriptor's names, version, size and callbacks |
| ReflFinalize.ClassPairsFrom | trunk/Code/Libs/Reflection/Reflection.cpp:1239-1242 | a descriptor passes the comparison with later ones exactly when it differs from each by name and by hash |
| ReflFinalize.AliasConflictsFrom | trunk/Code/Libs/Reflection/Reflection.cpp:1244-1245 | a descriptor passes the alias check exactly when no class alias has its hash as the old name |
| ReflFinalize.AliasTargetsFrom | trunk/Code/Libs/Reflection/Reflection.cpp:1248-1251 | the alias pass succeeds exactly when every class alias's new name finds a class |
| ReflFinalize.ClassesAfterIff | trunk/Code/Libs/Reflection/Reflection.cpp:1238-1246 | the class checks pass exactly when class names and hashes are pairwise distinct and no alias renames a registered class |
| ReflFinalize.InitializeIff | trunk/Code/Libs/Reflection/Reflection.cpp:1233-1252 | `ReflInitialize` succeeds exactly when every descriptor finalizes, the classes are distinct, no alias renames a class, and every alias leads to a class |
| ReflFinalize.InitializedLookups | trunk/Code/Libs/Reflection/Reflection.cpp:1233-1252 | after `ReflInitialize`, every class is found under its own hash, and an alias takes exactly one hop to its new class |
| ReflFinalize.FoundUnderOwnHash | trunk/Code/Libs/Reflection/Reflection.cpp:1302-1320 | with distinct class hashes, every class is found under its own hash |
| ReflFinalize.AliasTakesOneHop | trunk/Code/Libs/Reflection/Reflection.cpp:1302-1320 | when no alias renames a class, an alias resolves to the class of its new name |
| ReflObjects.ReflTypeDesc.constructor | trunk/Code/Libs/Reflection/Reflection.cpp:558-579 | a new descriptor has the name, its hash, version 1, the size and offsets given, the creation function, no callbacks and empty lists |
| ReflObjects.ReflTypeDesc.AddParent | trunk/Code/Libs/Reflection/Reflection.cpp:582-586 | the parent is prepended and nothing else changes |
| ReflObjects.ReflTypeDesc.DeclareMember | trunk/Code/Libs/Reflection/Reflection.cpp:303-331 | declaring succeeds exactly when the member is well formed, prepends the new member and changes nothing else; otherwise it aborts with the member's reason |
| ReflObjects.ReflTypeDesc.MarkDeprecated | Code/Libs/Reflection/Reflection.h:110-112 | only the chosen member becomes deprecated |
| ReflObjects.ReflTypeDesc.RegisterConversionFunc | trunk/Code/Libs/Reflection/Reflection.cpp:512-515 | a member takes a conversion function once; a second registration aborts and changes nothing |
| ReflObjects.ReflTypeDesc.RegisterFinalizationFunc | trunk/Code/Libs/Reflection/Reflection.cpp:1107-1110 | a descriptor takes a finalization function once; a second registration aborts and changes nothing |
| ReflObjects.ReflTypeDesc.RegisterManualVersioningFunc | trunk/Code/Libs/Reflection/Reflection.cpp:1113-1118 | the first registration sets the versioning function and the current version; a second aborts and changes nothing |
| ReflObjects.ReflTypeDesc.RegisterMemberAlias | trunk/Code/Libs/Reflection/Reflection.cpp:1121-1124 | the alias is prepended and nothing else changes |
| ReflObjects.ReflTypeDesc.RegisterEnumValue | trunk/Code/Libs/Reflection/Reflection.cpp:1100-1104 | the enum value is prepended and nothing else changes |
| ReflObjects.ReflTypeDesc.SetTempBinding | Code/Libs/Reflection/Reflection.h:103-108 | only the chosen member's binding changes |
| ReflObjects.ReflTypeDesc.ClearAllTempBindings | trunk/Code/Libs/Reflection/Reflection.cpp:734-741 | every own member's binding is cleared, and nothing else changes |
| ReflObjects.ReflTypeDesc.Finalize | trunk/Code/Libs/Reflection/Reflection.cpp:847-908 | the in-place finalization succeeds exactly when the value-level finalization does, aborts with the same reason, and leaves the descriptor equal to its result |
| ReflObjects.ReflTypeDesc.Reorder | trunk/Code/Libs/Reflection/Reflection.cpp:849-884 | the reversals and member finalization abort on an unregistered parent, then on an unregistered class, then on misordered members, in that order; on success the lists are reordered |
| ReflObjects.ReflTypeDesc.ReorderParents | trunk/Code/Libs/Reflection/Reflection.cpp:849-864 | the parent list is reversed in place when every parent is registered, and the first parent's offsets become the descriptor's |
| ReflObjects.ReflTypeDesc.ReverseParents | trunk/Code/Libs/Reflection/Reflection.cpp:849-859 | the loop yields the reversed parent list exactly when every parent is registered |
| ReflObjects.ReflTypeDesc.ReverseMembers | trunk/Code/Libs/Reflection/Reflection.cpp:867-875 | the loop yields the finalized members in reverse exactly when every member finalizes |
| ReflObjects.ReflTypeDesc.CheckOrder | trunk/Code/Libs/Reflection/Reflection.cpp:877-884 | the loop passes exactly when the members are ordered |
| ReflObjects.ReflTypeDesc.ReverseEnums | trunk/Code/Libs/Reflection/Reflection.cpp:887-893 | the loop yields the enum values reversed |
| ReflObjects.ReflTypeDesc.CheckUnique | trunk/Code/Libs/Reflection/Reflection.cpp:896-906 | the nested loops pass exactly when the uniqueness pass does, with the same reason |
| ReflObjects.ReflTypeDesc.CheckDuplicates | trunk/Code/Libs/Reflection/Reflection.cpp:897-900 | the inner loop passes exactly when the member differs from every later one by name and hash |
| ReflObjects.ReflTypeDesc.CheckInherited | trunk/Code/Libs/Reflection/Reflection.cpp:902-905 | the check passes exactly when no parent finds the name |
| ReflObjects.FinalizeDescSteps | trunk/Code/Libs/Reflection/Reflection.cpp:847-908 | the aborts come in source order: unregistered parent, unregistered class, misordered, then the uniqueness reason |
| ReflObjects.ReversedFinalized | trunk/Code/Libs/Reflection/Reflection.cpp:867-875 | building the list by moving finalized members to the front yields the finalized list reversed |
| ReflObjects.ReflLibrary.constructor | trunk/Code/Libs/Reflection/Reflection.cpp:1302-1337 | the library starts with no descriptors and no class aliases |
| ReflObjects.ReflLibrary.RegisterClassDesc | trunk/Code/Libs/Reflection/Reflection.cpp:1328-1331 | the descriptor is prepended to the list, which keeps each object once |
| ReflObjects.ReflLibrary.RegisterDeprecatedClassDesc | trunk/Code/Libs/Reflection/Reflection.cpp:1334-1337 | the class alias is prepended and the descriptors are untouched |
| ReflObjects.ReflLibrary.Initialize | trunk/Code/Libs/Reflection/Reflection.cpp:1233-1252 | `ReflInitialize` in place succeeds exactly when the value-level initialization does, aborts with the same reason, and leaves the registry equal to its result |
| ReflObjects.ReflLibrary.FinalizeAll | trunk/Code/Libs/Reflection/Reflection.cpp:1234-1236 | finalizing each descriptor in list order matches finalizing the registry value step by step |
| ReflObjects.ReflLibrary.FinalizeAt | trunk/Code/Libs/Reflection/Reflection.cpp:1235 | finalizing one descriptor object changes only that descriptor, to its finalized value |
| ReflObjects.ReflLibrary.ClearAt | trunk/Code/Libs/Reflection/Reflection.cpp:734-741 | clearing one descriptor's own bindings changes only that descriptor |
| ReflObjects.ReflLibrary.CheckClasses | trunk/Code/Libs/Reflection/Reflection.cpp:1238-1246 | the loops pass exactly when the class checks do, with the same reason |
| ReflObjects.ReflLibrary.CheckClassPairs | trunk/Code/Libs/Reflection/Reflection.cpp:1239-1242 | the inner loop passes exactly when the descriptor differs from every later one by name and hash |
| ReflObjects.ReflLibrary.CheckAliasConflicts | trunk/Code/Libs/Reflection/Reflection.cpp:1244-1245 | the inner loop passes exactly when no class alias has the descriptor's hash as its old name |
| ReflObjects.ReflLibrary.CheckAliasTargets | trunk/Code/Libs/Reflection/Reflection.cpp:1247-1251 | the loop passes exactly when every class alias leads to a class |
| ReflObjects.ReflLibrary.RegisterTempBinding | trunk/Code/Libs/Reflection/Reflection.cpp:1133-1142 | an inherited lookup that aborts aborts; otherwise it binds exactly the member found with the matching type, reports whether it did, and changes nothing else |
| ReflObjects.ReflLibrary.Rebind | trunk/Code/Libs/Reflection/Reflection.cpp:1133-1142 | the lookup both binding calls share: it aborts exactly when the inherited lookup does, binds exactly the member found with the matching type to the given address, reports whether it did, and otherwise changes nothing |
| ReflObjects.ReflLibrary.ClearTempBinding | trunk/Code/Libs/Reflection/Reflection.cpp:744-749 | the same lookup clears exactly the member found with the matching type, and changes nothing else |
| ReflObjects.ReflLibrary.ClearReachableBindings | trunk/Code/Libs/Reflection/Reflection.cpp:734-741 | corrected: the bindings of the class's own members and those of every ancestor the lookup reaches are cleared |
| ReflObjects.ReflLibrary.Deserialize | trunk/Code/Libs/Reflection/Reflection.cpp:1262-1292 | reading loads each sibling from the cursor on in turn against the registered classes, from NULL; on success the cursor is back at the node above |
| ReflSerialize.DescNode | trunk/Code/Libs/Reflection/Reflection.cpp:1176-1192 | the node carries the descriptor's name as `Type` and its version as hexadecimal `Version`, and no children yet |
| ReflSerialize.SerializeAt | trunk/Code/Libs/Reflection/Reflection.cpp:1176-1192 | a written object is a "Class" node typed with the descriptor's name and version |
| ReflSerialize.Serialize | trunk/Code/Libs/Reflection/Reflection.cpp:1176-1192 | writing succeeds exactly when writing the object's parts does, and gives a "Class" node with the descriptor's name and its version in hexadecimal; an embedded class member is read at the outer object's start plus its offset, and an enum member by its whole stored value |
| ReflSerialize.SerializeAsWritten | trunk/Code/Libs/Reflection/Reflection.cpp:1176-1192 | the same shape and failure condition, with an embedded class member located from the shifted instance as `ReflMember::Serialize` does and an enum member written by the low byte of its stored value |
| ReflSerialize.LiveNames | trunk/Code/Libs/Reflection/Reflection.cpp:523-555 | only members that are not deprecated are written, so there are never more names than members |
| ReflSerialize.SerializeMember | trunk/Code/Libs/Reflection/Reflection.cpp:523-555 | a deprecated member writes nothing; any other writes a "DataMember" node carrying its name |
| ReflSerialize.ParentNodes | trunk/Code/Libs/Reflection/Reflection.cpp:1145-1163 | `SerializeMembers` writes one "BaseClass" node per parent, in list order, each naming the parent's descriptor |
| ReflSerialize.ParentCount | trunk/Code/Libs/Reflection/Reflection.cpp:1150-1163 | exactly one node per parent |
| ReflSerialize.MemberNodes | trunk/Code/Libs/Reflection/Reflection.cpp:1164-1172 | one "DataMember" node per member that is not deprecated, in list order, each naming its member |
| ReflSerialize.ParentChildren | trunk/Code/Libs/Reflection/Reflection.cpp:1145-1173 | the parents' nodes come first among the children |
| ReflSerialize.MemberChildren | trunk/Code/Libs/Reflection/Reflection.cpp:1145-1173 | the children are exactly the parents' nodes followed by the live members' nodes |
| ReflSerialize.SerializedLayout | trunk/Code/Libs/Reflection/Reflection.cpp:1176-1192 | the object's node is "Class" with the descriptor's name, a version `%x` reads back, the parents' nodes and then the live members' nodes |
| ReflSerialize.DataText | trunk/Code/Libs/Reflection/Reflection.cpp:543-550 | a member that is not a class is written by its kind's marshaler; an enum member is looked up by its stored low byte as written and by its whole stored value when corrected |
| ReflSerialize.DataTextAgreesOnLowValues | trunk/Code/Libs/Reflection/Reflection.cpp:170-182 | for a stored value from 0 to 255, the program's writer and the corrected one write the same text |
| ReflSerialize.DataMemberRulesAgree | trunk/Code/Libs/Reflection/Reflection.cpp:543-550 | a member that is not a class, holding a value from 0 to 255, is written as the same node by the program and by the corrected writer |
| ReflSerialize.DataTextLowByteLosesValue | trunk/Code/Libs/Reflection/Reflection.cpp:170-182 | for an enum with values 0 and 256, a member holding 256 is written as the name of 0 by the program and as the name of 256 when corrected |
| ReflSerialize.DataMemberWritten | trunk/Code/Libs/Reflection/Reflection.cpp:523-555 | a live data member is written with its name, its type name and its value's text |
| ReflDeserialize.ReadVersion | trunk/Code/Libs/Reflection/Reflection.cpp:766-771 | a missing `Version` aborts; a hexadecimal one is read as its value |
| ReflDeserialize.EmptyVersionReadsZero | trunk/Code/Libs/Reflection/Reflection.cpp:765-771 | an empty `Version`, what the XML reader gives for a missing attribute, reads as version 0 |
| ReflDeserialize.FinalizeInst | trunk/Code/Libs/Reflection/Reflection.cpp:911-916 | without a finalize callback the storage is unchanged |
| ReflDeserialize.DeserializeDesc | trunk/Code/Libs/Reflection/Reflection.cpp:760-783 | reading an object's node aborts when it has no `Version` |
| ReflDeserialize.DataMemberNodeRead | trunk/Code/Libs/Reflection/Reflection.cpp:806-822 | a "DataMember" node without a `Name` aborts |
| ReflDeserialize.BaseClassNodeRead | trunk/Code/Libs/Reflection/Reflection.cpp:823-836 | a "BaseClass" node without a `Type` aborts; one naming an unregistered class is skipped without writing |
| ReflDeserialize.BaseClassTarget | trunk/Code/Libs/Reflection/Reflection.cpp:828-831 | the class a "BaseClass" node names is used only if it is registered and is a direct parent whose `parentHash` is that class's hash |
| ReflDeserialize.MemberDeserialize | trunk/Code/Libs/Reflection/Reflection.cpp:396-442 | a node without a `Type` aborts; a value of another type, for a member without a conversion function, writes nothing |
| ReflDeserialize.MatchingRead | trunk/Code/Libs/Reflection/Reflection.cpp:412-426 | a deprecated data member's value with no temp binding aborts |
| ReflDeserialize.ConvertedRead | trunk/Code/Libs/Reflection/Reflection.cpp:427-439 | an old type the table does not know aborts; an old class value without a nested node writes nothing |
| ReflDeserialize.DeserializeClassMember | trunk/Code/Libs/Reflection/Reflection.cpp:445-475 | an unregistered member type aborts, and so does a node that does not hold a "Class" node |
| ReflDeserialize.ConvertDataMember | trunk/Code/Libs/Reflection/Reflection.cpp:379-393 | a conversion succeeds exactly when the old type's marshaler decodes the text, and then hands the decoded value, the name read and the old type's hash to the conversion function |
| ReflDeserialize.ConvertClassMember | trunk/Code/Libs/Reflection/Reflection.cpp:339-376 | children that are neither "DataMember" nor "BaseClass" nodes convert nothing |
| ReflDeserialize.ScratchFits | trunk/Code/Libs/Reflection/Reflection.cpp:379-393 | every kind's value fits the 16-byte scratch buffer, so the size check never aborts |
| ReflDeserialize.DeserializeInto | trunk/Code/Libs/Reflection/Reflection.cpp:1295-1299 | an object stamped with an unregistered type aborts on the NULL descriptor; otherwise it is read by its type's descriptor |
| ReflDeserialize.Deserialize | trunk/Code/Libs/Reflection/Reflection.cpp:752-757 | a node without `Version` aborts; for a descriptor without versioning or finalize callbacks, reading is the member walk from the object's start at offset 0 |
| ReflDeserialize.OtherNodesSkipped | trunk/Code/Libs/Reflection/Reflection.cpp:794-843 | the member walk over children that are neither "DataMember" nor "BaseClass" nodes leaves the storage unchanged |
| ReflDeserialize.ReadableChildRead | trunk/Code/Libs/Reflection/Reflection.cpp:806-822 | a readable "DataMember" node naming a live member that the lookup finds in the descriptor itself stores the parsed cell at the member's address and changes nothing else |
| ReflDeserialize.ReadableNodeRead | trunk/Code/Libs/Reflection/Reflection.cpp:396-442 | a live member reading a node of its own type stores the cell the text parses to, and nothing else |
| ReflRoundTrip.ObjectRoundTrip | trunk/Code/Libs/Reflection/Reflection.cpp:1176-1192 | for an object whose descriptors passed `Finalize`'s uniqueness check, whose parents are registered under their own names and listed once, without versioning or finalize callbacks, and whose live members are booleans, integers or enums holding values they can write: `Serialize` succeeds, and `Deserialize` of its result into any storage succeeds, sets every cell of every part's members, inherited ones included, to its value in the object written, and leaves every other cell as it was |
| ReflRoundTrip.ReadBackUnchanged | trunk/Code/Libs/Reflection/Reflection.cpp:752-783 | reading such an object's tree back into the object it was written from changes no cell |
| ReflRoundTrip.ObjectRestores | trunk/Code/Libs/Reflection/Reflection.cpp:1145-1173 | the object's part nodes, read at the object's start into any storage, give exactly that storage with the object's cells set to their values in the object written, and its descriptor has no callbacks |
| ReflRoundTrip.PartRestores | trunk/Code/Libs/Reflection/Reflection.cpp:1145-1173 | the part nodes of a restorable object starting anywhere, written and read at offset 0, give exactly the storage read into with the object's cells set to their written values |
| ReflRoundTrip.ObjectWritten | trunk/Code/Libs/Reflection/Reflection.cpp:1176-1192 | `Serialize` puts the object's part nodes under a "Class" node describing the descriptor |
| ReflRoundTrip.ClassNodeRead | trunk/Code/Libs/Reflection/Reflection.cpp:760-783 | for a descriptor without callbacks, `Deserialize` of a "Class" node reads its children at the object's start |
| ReflRoundTrip.MembersRestore | trunk/Code/Libs/Reflection/Reflection.cpp:1145-1173 | a restorable part is written as its parents' nodes and then its members' nodes, which read back over any storage into exactly that storage with every cell of the part and its parents set to its written value |
| ReflRoundTrip.MembersJoin | trunk/Code/Libs/Reflection/Reflection.cpp:1145-1173 | the parents' nodes followed by the own members' nodes read back into the storage with the cells of both set to their written values |
| ReflRoundTrip.ParentsRestore | trunk/Code/Libs/Reflection/Reflection.cpp:1151-1162 | the parents from position `i` on are written as "BaseClass" nodes that read back into exactly the storage read into, with every cell of those parents' parts set to its written value |
| ReflRoundTrip.ParentStep | trunk/Code/Libs/Reflection/Reflection.cpp:1151-1162 | parent `i`'s node comes before the later parents' nodes, and reading the list reads the parent's part at its `baseOffset` and then the rest |
| ReflRoundTrip.ParentNodeRead | trunk/Code/Libs/Reflection/Reflection.cpp:824-837 | a "BaseClass" node naming direct parent `i`, registered under its own name and listed once, is read as that parent at the offset plus its `baseOffset` |
| ReflRoundTrip.BaseNodeRead | trunk/Code/Libs/Reflection/Reflection.cpp:824-837 | the "BaseClass" node written for such a parent without callbacks reads what its children read at the parent's offset |
| ReflRoundTrip.NodesReadAll | trunk/Code/Libs/Reflection/Reflection.cpp:794-843 | the member walk from child `i` reads the children from `i` on in order, each over what the one before left, stopping at the first that aborts |
| ReflRoundTrip.ReadAllAppend | trunk/Code/Libs/Reflection/Reflection.cpp:794-843 | reading `xs + ys` reads `xs` and then `ys` over what `xs` left, and aborts where `xs` aborts |
| ReflRoundTrip.MemberListRestores | trunk/Code/Libs/Reflection/Reflection.cpp:1165-1170 | the own members from position `j` on are written and read back onto their cells, over any storage |
| ReflRoundTrip.DeprecatedMemberStep | trunk/Code/Libs/Reflection/Reflection.cpp:1165-1170 | a deprecated member adds no node and no restored cell |
| ReflRoundTrip.MemberRestoresAsWritten | trunk/Code/Libs/Reflection/Reflection.cpp:543-550 | the program's own member writer restores a live member of a restorable part whose stored value is from 0 to 255, as the corrected one does |
| ReflRoundTrip.MemberRestores | trunk/Code/Libs/Reflection/Reflection.cpp:806-822 | a live member of a restorable part is written as a node that, read into any storage, sets the member's cell to the value it held and changes nothing else |
| ReflRoundTrip.PartMemberWritten | trunk/Code/Libs/Reflection/Reflection.cpp:523-555 | the node written for a live member of a restorable part is readable back into its value, and its name finds the member in the part itself at offset 0 |
| ReflRoundTrip.FindsOwnMember | trunk/Code/Libs/Reflection/Reflection.cpp:944-970 | in a part that passed `Finalize`'s uniqueness check, a member's own name finds it in the part itself at offset 0, whatever its parents declare |
| ReflRoundTrip.WrittenReadable | trunk/Code/Libs/Reflection/Reflection.cpp:523-555 | a live member holding a value it can write writes a node the reader accepts, whatever the storage it is read into holds |
| ReflRoundTrip.MemberWrites | trunk/Code/Libs/Reflection/Reflection.cpp:523-555 | a live member holding a value it can restore is written as its name, type name and text |
| ReflRoundTrip.MemberNodeReadable | trunk/Code/Libs/Reflection/Reflection.cpp:396-442 | the node written for a restorable value has the member's name, a type the member accepts, and text that parses back to the value |
| ReflRoundTrip.WrittenType | trunk/Code/Libs/Reflection/Reflection.cpp:406 | the type name a value is written with is one `TypeMatches` accepts for the member |
| ReflRoundTrip.WrittenText | trunk/Code/Libs/Reflection/Reflection.cpp:143-242 | the text a restorable value is written with parses back to the value, whatever the storage held |
| ReflRoundTrip.NodeAttributes | trunk/Code/Libs/Reflection/Reflection.cpp:537-547 | the node is named "DataMember" and carries the written `Name` and `Type` |
| ReflStreamRead.DeserializeMembers | trunk/Code/Libs/Reflection/Reflection.cpp:794-844 | walking the children with the cursor computes the value-level member walk over the starting node's children, and on success leaves the cursor where it started |
| ReflStreamRead.VisitIsNodes | trunk/Code/Libs/Reflection/Reflection.cpp:800-839 | the sibling loop with the child reader as its step is the member walk |
| ReflStreamRead.LoadClassNode | trunk/Code/Libs/Reflection/Reflection.cpp:1268-1289 | a node that is not a "Class" node of a registered type is skipped, except that a "Class" node without `Type` aborts; a loadable node returns the object it makes |
| ReflStreamRead.LastLoadable | trunk/Code/Libs/Reflection/Reflection.cpp:1262-1292 | the position found holds a loadable node and none after it does; with none found, no node from the start is loadable |
| ReflStreamRead.LoadReturnsLast | trunk/Code/Libs/Reflection/Reflection.cpp:1262-1292 | a completed load returns the object of the last loadable node, or NULL when there is none: each later object replaces the one before |
| ReflEmbedded.EmbeddedLookup | trunk/Code/Libs/Reflection/Reflection.cpp:1302-1320 | in the two-class example the embedded class is found under its name |
| ReflEmbedded.InnerWritten | trunk/Code/Libs/Reflection/Reflection.cpp:1145-1192 | the embedded class's node reads its field at the start it is given |
| ReflEmbedded.OuterWritten | trunk/Code/Libs/Reflection/Reflection.cpp:523-555 | the outer document holds the embedded field read from the inner object's start under each rule |
| ReflEmbedded.EmbeddedMemberMisread | trunk/Code/Libs/Reflection/Reflection.cpp:1176-1192 | as written, the embedded field is read 4 bytes before the object, while the corrected writer reads it at the object's start; the two documents differ whenever those cells differ |
| ReflEmbedded.ValueNodeRead | trunk/Code/Libs/Reflection/Reflection.cpp:806-822 | the embedded class's "DataMember" node for `value` stores the value its text gives at the start of the object it is read into, and nothing else |
| ReflEmbedded.InnerRead | trunk/Code/Libs/Reflection/Reflection.cpp:760-783 | the embedded class's "Class" node, read at a start, stores its field's value there and nothing else |
| ReflEmbedded.ClassMemberRead | trunk/Code/Libs/Reflection/Reflection.cpp:445-475 | the outer node for the class member hands its nested "Class" node to the embedded descriptor at the member's offset, which stores the field at the object's start |
| ReflEmbedded.OuterRead | trunk/Code/Libs/Reflection/Reflection.cpp:752-783 | `Deserialize` of the outer document stores the embedded field's value at the object's `ReflClass` pointer and changes nothing else |
| ReflEmbedded.EmbeddedRoundTrip | trunk/Code/Libs/Reflection/Reflection.cpp:523-555 | the corrected `Serialize` followed by `Deserialize` restores an `int32` embedded field into any storage; the as-written writer's document instead stores, at the field, what lay 4 bytes before the object |
| LegacyData.KindOf | Code/Libs/Reflection/Reflection.cpp:274-310 | the member's kind is the first table entry for its declared type, or CLASS for a type the table does not know |
| LegacyData.KindOfMatches | Code/Libs/Reflection/Reflection.cpp:274-310 | a kind other than CLASS has the declared type's name; CLASS means the type is CLASS or no table entry has that name |
| LegacyData.ConstructMember | trunk/Code/Libs/Reflection/Reflection.h:354-361 | a declared member has the name, its hash, the declared type's hash, the size, the offset and its kind, with no enum values and no conversion function |
| LegacyData.ConstructDesc | trunk/Code/Libs/Reflection/Reflection.h:276-297 | a declared class has the name, its hash, the size and the creation function, no finalize callback and empty lists |
| LegacyData.ParentLink | trunk/Code/Libs/Reflection/Reflection.h:335-349 | a parent link holds the parent's offset within the derived class and the parent name's hash |
| LegacyData.LegacyEnumEntry | trunk/Code/Libs/Reflection/Reflection.h:378-389 | an enum entry holds the value converted to `unsigned` and the name written |
| LegacyData.Prepended | Code/Libs/Reflection/Reflection.cpp:564-567 | registering each element onto a list lengthens it by one per element |
| LegacyData.PrependedIsReverse | Code/Libs/Reflection/Reflection.cpp:564-567 | registering in declaration order leaves the new elements reversed ahead of the old list |
| LegacyData.Finalized | Code/Libs/Reflection/Reflection.cpp:617-637 | finalizing reverses the parents and the members, finalizing each member, and keeps the aliases, the name, the hash and the callback |
| LegacyData.WithRegisteredEnums | Code/Libs/Reflection/Reflection.cpp:509-512 | each member's enum values are registered in declaration order and nothing else changes |
| LegacyData.FinalizeRestoresDeclaration | Code/Libs/Reflection/Reflection.cpp:459-469 | after finalizing, parents, members and each member's enum values are back in declaration order, and member aliases stay reversed |
| LegacyData.MembersRestored | Code/Libs/Reflection/Reflection.cpp:617-637 | reversing the registered members and each member's enum values gives back the declared members |
| LegacyObjects.LegacyClassDesc.constructor | Code/Libs/Reflection/Reflection.cpp:547-561 | a new descriptor has the name, its hash, the size and the creation function, no finalize callback and empty lists |
| LegacyObjects.LegacyClassDesc.AddParent | Code/Libs/Reflection/Reflection.cpp:564-567 | the parent goes to the front of the parent list, and nothing else changes |
| LegacyObjects.LegacyClassDesc.DeclareMember | Code/Libs/Reflection/Reflection.cpp:274-310 | the member the constructor builds goes to the front of the member list, and nothing else changes |
| LegacyObjects.LegacyClassDesc.DetermineKind | Code/Libs/Reflection/Reflection.cpp:297-307 | the kind is that of the first table entry whose type hash matches, and CLASS when none does |
| LegacyObjects.LegacyClassDesc.RegisterEnumValue | Code/Libs/Reflection/Reflection.cpp:509-512 | the value goes to the front of member `i`'s enum list, and nothing else changes |
| LegacyObjects.LegacyClassDesc.RegisterConversionFunc | Code/Libs/Reflection/Reflection.cpp:503-506 | the first registration sets member `i`'s conversion function; a second aborts and changes nothing |
| LegacyObjects.LegacyClassDesc.RegisterMemberAlias | Code/Libs/Reflection/Reflection.cpp:736-739 | the alias goes to the front of the alias list, and nothing else changes |
| LegacyObjects.LegacyClassDesc.RegisterFinalizationFunc | Code/Libs/Reflection/Reflection.cpp:742-745 | the first registration sets the finalize callback; a second aborts and changes nothing |
| LegacyObjects.LegacyClassDesc.Finalize | Code/Libs/Reflection/Reflection.cpp:617-637 | the descriptor becomes its finalized form: parents reversed, members reversed, and each member's enum values reversed |
| LegacyObjects.LegacyClassDesc.ReverseList | Code/Libs/Reflection/Reflection.cpp:619-626 | the pointer-reversal loop returns the list reversed |
| LegacyObjects.LegacyLibrary.constructor | Code/Libs/Reflection/Reflection.cpp:67-68 | both global lists start empty |
| LegacyObjects.LegacyLibrary.RegisterClassDesc | Code/Libs/Reflection/Reflection.cpp:835-840 | the descriptor becomes the head of the list and is finalized there; no other descriptor and no alias changes |
| LegacyObjects.LegacyLibrary.RegisterClassDescAlias | Code/Libs/Reflection/Reflection.cpp:843-846 | the alias goes to the front of the alias list; the descriptors are unchanged |
| LegacyObjects.LegacyLibrary.Deserialize | Code/Libs/Reflection/Reflection.cpp:849-874 | the sibling loop reads every node from the cursor on with `LoadClassNode`, starting from NULL; when it completes the cursor climbs to the node above |
| LegacyLookup.DescIndexFrom | Code/Libs/Reflection/Reflection.cpp:814-832 | the descriptor found is at or after the start and matches the name |
| LegacyLookup.GetClassDescVia | Code/Libs/Reflection/Reflection.cpp:814-832 | a lookup through aliases finds a registered descriptor or nothing |
| LegacyLookup.GetClassDesc | Code/Libs/Reflection/Reflection.cpp:814-832 | `GetClassDesc` returns a registered descriptor or NULL |
| LegacyLookup.FindLocalMember | Code/Libs/Reflection/Reflection.cpp:685-694 | the member found is an own member with that name hash |
| LegacyLookup.MemberIndexFrom | Code/Libs/Reflection/Reflection.cpp:685-694 | the member found is at or after the start and has that name hash |
| LegacyLookup.LocalOrAliased | Code/Libs/Reflection/Reflection.cpp:672-681 | the own member or aliased member found is an own member |
| LegacyLookup.FindMemberIn | Code/Libs/Reflection/Reflection.cpp:656-682 | a member found is a member of a registered descriptor |
| LegacyLookup.SearchParents | Code/Libs/Reflection/Reflection.cpp:660-671 | a member found through the parents is a member of a registered descriptor |
| LegacyLookup.FindMember | Code/Libs/Reflection/Reflection.cpp:656-682 | `FindMember` returns a member of a registered descriptor or NULL |
| LegacyLookup.FindParent | Code/Libs/Reflection/Reflection.cpp:697-706 | the parent found is a direct parent with that hash |
| LegacyLookup.ParentIndexFrom | Code/Libs/Reflection/Reflection.cpp:697-706 | the parent found is at or after the start and has that hash |
| LegacyLookup.NumMembersIn | Code/Libs/Reflection/Reflection.cpp:715-733 | a class counts at least its own members |
| LegacyLookup.DetermineType | Code/Libs/Reflection/Reflection.cpp:445-456 | a type the table knows gives its first entry, whose name has the type's hash; a type it does not know asserts |
| LegacyLookup.EnumByValue | Code/Libs/Reflection/Reflection.cpp:472-482 | the entry found has the value converted to `unsigned` |
| LegacyLookup.EnumByName | Code/Libs/Reflection/Reflection.cpp:485-495 | the entry found has a name that matches within the length, ignoring case |
| LegacyAgreement.EmbedDesc | trunk/Code/Libs/Reflection/Reflection.h:165-244 | an older descriptor read as a newer one keeps its hash, member aliases, parents and members, position by position |
| LegacyAgreement.Embed | Code/Libs/Reflection/Reflection.cpp:814-846 | the library read as a registry keeps its descriptors in order, its class aliases, and its recursion bound |
| LegacyAgreement.DescIndexAgrees | Code/Libs/Reflection/Reflection.cpp:814-832 | both engines' descriptor scans stop at the same position |
| LegacyAgreement.GetClassDescAgrees | Code/Libs/Reflection/Reflection.cpp:814-832 | both engines' `GetClassDesc` resolve every hash to the same descriptor, through aliases included |
| LegacyAgreement.MemberIndexAgrees | Code/Libs/Reflection/Reflection.cpp:685-694 | both engines' own-member scans stop at the same position |
| LegacyAgreement.LocalOrAliasedAgrees | Code/Libs/Reflection/Reflection.cpp:672-681 | both engines look up own members and then the first member alias the same way |
| LegacyAgreement.FindMemberAgrees | Code/Libs/Reflection/Reflection.cpp:656-682 | both engines' `FindMember` find the same member of the same descriptor at the same offset, and fail for the same reason |
| LegacyAgreement.SearchParentsAgrees | Code/Libs/Reflection/Reflection.cpp:660-671 | both engines' parent loops agree from every position |
| LegacyAgreement.ParentIndexAgrees | Code/Libs/Reflection/Reflection.cpp:697-706 | both engines' parent scans stop at the same position |
| LegacyAgreement.NumMembersAgrees | Code/Libs/Reflection/Reflection.cpp:715-733 | both engines' `NumMembers` count the same |
| LegacyAgreement.ParentMembersAgrees | Code/Libs/Reflection/Reflection.cpp:715-733 | both engines' parent counts agree from every position |
| LegacyAgreement.FindMemberSound | Code/Libs/Reflection/Reflection.cpp:656-682 | a member the older `FindMember` reports is its descriptor's own lookup for the name, reached through parent links whose offsets add up to the reported offset |
| LegacyAgreement.FindMemberComplete | Code/Libs/Reflection/Reflection.cpp:656-682 | when parent links resolve without a cycle, a name some ancestor declares or aliases is always found |
| LegacyAgreement.FindMemberNeverFails | Code/Libs/Reflection/Reflection.cpp:656-682 | when parent links resolve without a cycle, `FindMember` never asserts |
| LegacyAgreement.NumMembersNeverFails | Code/Libs/Reflection/Reflection.cpp:715-733 | when parent links resolve without a cycle, `NumMembers` never dereferences NULL |
| LegacyAgreement.FindParentAgrees | Code/Libs/Reflection/Reflection.cpp:697-706 | both engines' `FindParent` pick the same direct parent |
| LegacyClassMacros.ClassNameHashAsWritten | trunk/Code/Libs/Reflection/Reflection.h:276-306 | as written, the class hash is the bare name's, which is the registered name's only without a namespace |
| LegacyClassMacros.ClassNameHash | trunk/Code/Libs/Reflection/Reflection.h:276-306 | corrected: the class hash is the hash of the name the descriptor is registered under, the same as written when there is no namespace |
| LegacyClassMacros.ClassSerialize | trunk/Code/Libs/Reflection/Reflection.h:276-288 | a class's `Serialize` calls through NULL when its hash finds no descriptor, and is the found descriptor's writer as written otherwise |
| LegacyClassMacros.ClassDeserialize | trunk/Code/Libs/Reflection/Reflection.h:276-288 | a class's `Deserialize` calls through NULL when its hash finds no descriptor, and is the found descriptor's otherwise |
| LegacyClassMacros.DescIndexReaches | Code/Libs/Reflection/Reflection.cpp:814-832 | a descriptor with the hash at or after the start stops the scan at or before it |
| LegacyClassMacros.RegisteredClassFound | Code/Libs/Reflection/Reflection.cpp:814-832 | a registered descriptor's hash always finds a descriptor with that hash |
| LegacyClassMacros.QualifiedClassFound | trunk/Code/Libs/Reflection/Reflection.h:276-306 | with the corrected hash, a declared class always reaches a descriptor of its registered name, namespace or not, and its `Serialize` and `Deserialize` are that descriptor's |
| LegacyClassMacros.NamespacedClassNotFound | trunk/Code/Libs/Reflection/Reflection.h:299-306 | as written, a class declared in a namespace looks up the bare name, finds nothing and calls through NULL, while the qualified name finds it |
| LegacyMarshal.EnumTextAsWritten | Code/Libs/Reflection/Reflection.cpp:145-155 | as written, the text exists exactly when the stored value's low byte is one of the member's enum values; otherwise it asserts |
| LegacyMarshal.EnumText | Code/Libs/Reflection/Reflection.cpp:145-155 | corrected: the text exists exactly when the whole stored value is one of the member's enum values as `unsigned`, and is that entry's name |
| LegacyMarshal.EnumParse | Code/Libs/Reflection/Reflection.cpp:203-213 | reading succeeds exactly when an entry's name matches within the length, ignoring case, and stores that entry's value as an `int` |
| LegacyMarshal.MemberText | Code/Libs/Reflection/Reflection.cpp:237-266 | an enum member is written by its own enum values, any other by its kind's marshaler |
| LegacyMarshal.MemberParse | Code/Libs/Reflection/Reflection.cpp:237-266 | an enum is read by the member's enum values, any other kind by its marshaler |
| LegacyMarshal.SignedUnsignedSigned | Code/Libs/Reflection/Reflection.cpp:203-213 | an `int` stored as `unsigned` and read back as `int` is unchanged |
| LegacyMarshal.EnumRoundTrip | Code/Libs/Reflection/Reflection.cpp:145-213 | an enumerated value survives being written by name and read back, when names that match within the length carry the same value |
| LegacyMarshal.MemberRoundTrip | Code/Libs/Reflection/Reflection.cpp:125-213 | every value a member of its kind can hold survives being written and read back, whatever was stored before |
| LegacyMarshal.EnumTextAgreesOnLowValues | Code/Libs/Reflection/Reflection.cpp:145-155 | for stored values 0 to 255, reading the byte and reading the `int` write the same text |
| LegacyMarshal.EnumLowByteLosesValue | Code/Libs/Reflection/Reflection.cpp:148 | a member holding 256 is written as the name of 0 and reads back as 0; reading the whole `int` writes a name that reads back as 256 |
| LegacyMarshal.WideValues | trunk/Code/Libs/Reflection/Reflection.h:378-389 | the example member's entries are "Small" for 0 and "Large" for 256, in declaration order |
| LegacyMarshal.WideByValue | Code/Libs/Reflection/Reflection.cpp:472-482 | the low byte of 256 finds "Small"; the whole value finds "Large" |
| LegacyMarshal.WideByName | Code/Libs/Reflection/Reflection.cpp:485-495 | each example name finds its own entry |
| LegacySerialize.TypeNode | Code/Libs/Reflection/Reflection.cpp:782-795 | a node with the given name carries the type name as `Type` and no `Version` |
| LegacySerialize.MemberTag | Code/Libs/Reflection/Reflection.cpp:520-523 | a "DataMember" node with the member's name and the table's name of its kind |
| LegacySerialize.SerializeAt | Code/Libs/Reflection/Reflection.cpp:782-795 | a written object is a "Class" node with the descriptor's name and no `Version` |
| LegacySerialize.Serialize | trunk/Code/Libs/Reflection/Reflection.h:192 | writing from offset 0 with the corrected enum writer succeeds exactly when writing the parts does, and gives a "Class" node with the descriptor's name and no `Version` |
| LegacySerialize.SerializeAsWritten | trunk/Code/Libs/Reflection/Reflection.h:192 | the program's writer from offset 0: the same shape and failure condition as `Serialize`, with an enum member written by the low byte of its stored value |
| LegacySerialize.DataText | Code/Libs/Reflection/Reflection.cpp:533-541 | a member that is not a class is written by its kind's marshaler; an enum member is looked up by its stored low byte as written and by its whole stored value when corrected |
| LegacySerialize.DataTextAgreesOnLowValues | Code/Libs/Reflection/Reflection.cpp:145-155 | for a stored value from 0 to 255, the program's writer and the corrected one write the same text |
| LegacySerialize.DataTextLowByteLosesValue | Code/Libs/Reflection/Reflection.cpp:145-155 | an enum member with values 0 and 256 holding 256 is written as the name of 0 by the program and as the name of 256 when corrected |
| LegacySerialize.DataMemberRulesAgree | Code/Libs/Reflection/Reflection.cpp:533-541 | a member that is not a class, holding a value from 0 to 255, is written as the same tag by the program and by the corrected writer |
| LegacySerialize.SerializeMember | Code/Libs/Reflection/Reflection.cpp:520-544 | the node written names the member and its kind; a class member whose type is not registered aborts |
| LegacySerialize.ParentNodeStep | Code/Libs/Reflection/Reflection.cpp:761-769 | the parent loop writes parent `i`'s node and then the later parents' nodes |
| LegacySerialize.ParentNodes | Code/Libs/Reflection/Reflection.cpp:761-769 | one "BaseClass" node per parent, in list order, each naming the parent's descriptor |
| LegacySerialize.ParentCount | Code/Libs/Reflection/Reflection.cpp:761-769 | exactly one node per parent |
| LegacySerialize.MemberListStep | Code/Libs/Reflection/Reflection.cpp:772-776 | the member loop writes member `j`'s node and then the later members' nodes |
| LegacySerialize.MemberNodes | Code/Libs/Reflection/Reflection.cpp:772-776 | one "DataMember" node per member, in list order, each naming its member and kind |
| LegacySerialize.MembersStep | Code/Libs/Reflection/Reflection.cpp:754-779 | the parents' nodes and then the members' nodes |
| LegacySerialize.ParentChildren | Code/Libs/Reflection/Reflection.cpp:754-779 | the first children are one node per parent, in list order |
| LegacySerialize.MemberChildren | Code/Libs/Reflection/Reflection.cpp:754-779 | the children are exactly one node per parent followed by one node per member |
| LegacySerialize.SerializedLayout | Code/Libs/Reflection/Reflection.cpp:782-795 | the object's node is "Class" with the descriptor's name and no version, holding the parents' nodes and then the members' nodes |
| LegacySerialize.DataMemberWritten | Code/Libs/Reflection/Reflection.cpp:533-541 | a member that is not a class is written as its tag holding its value's text |
| LegacyDeserialize.FinalizeInst | Code/Libs/Reflection/Reflection.cpp:640-644 | without a finalize callback the storage is unchanged; with one, it is the callback's result on `inst` |
| LegacyDeserialize.DeserializeDesc | Code/Libs/Reflection/Reflection.cpp:570-614 | a node without children is left at once, without the finalize callback; otherwise the children are read in turn, the first abort stops the walk, and the finalize callback runs on what they left |
| LegacyDeserialize.DeserializeChild | Code/Libs/Reflection/Reflection.cpp:574-609 | a child that is neither a "DataMember" nor a "BaseClass" node is skipped |
| LegacyDeserialize.DataMemberNodeRead | Code/Libs/Reflection/Reflection.cpp:578-592 | a "DataMember" node without `Name` aborts; a name that finds no member is skipped |
| LegacyDeserialize.BaseClassNodeRead | Code/Libs/Reflection/Reflection.cpp:593-604 | a "BaseClass" node without `Type` aborts; an unregistered type is skipped |
| LegacyDeserialize.MemberDeserialize | Code/Libs/Reflection/Reflection.cpp:370-409 | a node without `Type` aborts; a value of another type, for a member without a conversion function, writes nothing |
| LegacyDeserialize.ConvertedRead | Code/Libs/Reflection/Reflection.cpp:394-406 | an old type the table does not know aborts; an old class value without a nested node writes nothing |
| LegacyDeserialize.DeserializeClassMember | Code/Libs/Reflection/Reflection.cpp:412-442 | an unregistered member type aborts, and so does a node that does not hold a "Class" node |
| LegacyDeserialize.ConvertDataMember | Code/Libs/Reflection/Reflection.cpp:353-367 | a conversion succeeds exactly when the old kind's marshaler decodes the text, and then hands the decoded value, the name and the old type's hash to the conversion function |
| LegacyDeserialize.ConvertClassMember | Code/Libs/Reflection/Reflection.cpp:314-350 | children that are neither "DataMember" nor "BaseClass" nodes convert nothing |
| LegacyDeserialize.Deserialize | trunk/Code/Libs/Reflection/Reflection.h:193 | a node without children leaves the storage unchanged; for a descriptor without a finalize callback, reading is the walk over the children at offset 0 |
| LegacyDeserialize.OtherNodesSkipped | Code/Libs/Reflection/Reflection.cpp:570-614 | the walk over children that are neither "DataMember" nor "BaseClass" nodes leaves the storage unchanged |
| LegacyDeserialize.MemberRestoresAsWritten | Code/Libs/Reflection/Reflection.cpp:533-541 | the program's own member writer round-trips a member that is not a class holding a value from 0 to 255, as the corrected one does |
| LegacyDeserialize.MemberRestores | Code/Libs/Reflection/Reflection.cpp:520-544 | a member that is not a class, holding a value it can write, is written as a node that `ReflMember::Deserialize` reads back into any storage as that value at the member's address, changing nothing else |
| LegacyDeserialize.MatchingValueRead | Code/Libs/Reflection/Reflection.cpp:382-389 | a node typed with the member's own kind stores what its text parses to at the member's address and nothing else |
| LegacyDeserialize.MismatchedTypeConverted | Code/Libs/Reflection/Reflection.cpp:393-406 | a node of another type writes nothing for a member without a conversion function and goes to the conversion path for one with it |
| LegacyStreamRead.DescDeserialize | Code/Libs/Reflection/Reflection.cpp:570-614 | the cursor method computes `DeserializeDesc` of the node under the cursor and, when it completes, leaves the cursor where it started |
| LegacyStreamRead.VisitIsNodes | Code/Libs/Reflection/Reflection.cpp:574-609 | the sibling loop with the child reader as its step computes the walk over the children |
| LegacyStreamRead.LoadClassNode | Code/Libs/Reflection/Reflection.cpp:852-869 | a node not named "Class" is skipped; a "Class" node without `Type` aborts; a registered type has an object created and read from the node at offset 0, and that object is the one returned |
| LegacyStreamRead.LastLoadable | Code/Libs/Reflection/Reflection.cpp:849-874 | the position of the last loadable node, and none only when no node is loadable |
| LegacyStreamRead.LoadReturnsLast | Code/Libs/Reflection/Reflection.cpp:849-874 | when the loop completes it returns the object made by the last loadable node, or NULL when none is loadable; earlier objects are dropped |

## Left out

- Stream.TextReader.ReadNodeAttribute: modelled as the `IStructuredTextStream` interface, which reports NODEDOESNTEXIST for a missing attribute. The XML implementation (trunk/Code/Libs/Stream/XMLStream.cpp:286-302) instead returns OK with empty text. So wherever the model aborts on a missing attribute, the XML-backed program reads "" and goes on: `MissingVersion` in `ReflDeserialize.ReadVersion`, and `MissingAttribute` in `ReflDeserialize.DataMemberNodeRead`, `BaseClassNodeRead`, `MemberDeserialize`, `DeserializeClassMember`, `ReflStreamRead.LoadClassNode` and their `Legacy*` counterparts. `ReflDeserialize.EmptyVersionReadsZero` gives the empty-text case for the version.
- Stream.TextReader.ReadNodeValue: modelled as the interface. The XML implementation's assertion that the node's first child is text (trunk/Code/Libs/Stream/XMLStream.cpp:277-279) is not modelled, nor is its NULL dereference on a node without children.
- ReflRoundTrip.ObjectRoundTrip: covers objects whose members are booleans, integers or enums, whose descriptors have no versioning or finalize callback, and whose hierarchy lists each parent once. Class, floating-point, string and pointer members are not covered by the round trip; for a class member, `ReflEmbedded.EmbeddedRoundTrip` proves it in a two-class example only.
- ReflRoundTrip.MemberRestores: proved for the corrected enum writer, which looks up the whole stored `int`. The program's writer looks up its low byte; `ReflRoundTrip.MemberRestoresAsWritten` proves the round trip for it only for stored values from 0 to 255, and `ReflSerialize.DataTextLowByteLosesValue` shows the loss above.
- ReflRoundTrip.ObjectRoundTrip: is about `Serialize`, the corrected writer (whole-`int` enum lookup, embedded object at its real address). No object-level round trip is claimed for the program's `SerializeAsWritten`.
- ReflRoundTrip.WrittenNode: is the node the corrected writer writes; for an enum member holding a value above 255 the program writes another name.
- ReflMarshal.MemberText: its enum case is the corrected whole-`int` lookup `EnumText`. The program's low-byte lookup is `ReflMarshal.EnumTextAsWritten`, which `ReflSerialize.SerializeAsWritten` uses through `ReflSerialize.DataText`.
- ReflMarshal.MemberRoundTrip: proved for the corrected enum writer. The program's writer agrees for stored values from 0 to 255 (`ReflMarshal.EnumTextAgreesOnLowValues`) and loses values above (`ReflMarshal.EnumLowByteLosesValue`).
- ReflSerialize.Serialize: writes enum members with the corrected writer. Only `ReflSerialize.SerializeAsWritten` uses the program's low-byte writer.
- ReflSerialize.SerializeAsWritten: has the program's enum writer and embedded-member address, so no round trip is proved for whole objects it writes; `ReflSerialize.DataMemberRulesAgree` ties its member nodes to the corrected ones for stored values from 0 to 255.
- LegacyMarshal.MemberText: its enum case is the corrected whole-`int` lookup `EnumText`. The program's low-byte lookup is `LegacyMarshal.EnumTextAsWritten`, which `LegacySerialize.SerializeAsWritten` uses through `LegacySerialize.DataText`.
- LegacyMarshal.MemberRoundTrip: proved for the corrected enum writer. The program's writer agrees for stored values from 0 to 255 (`LegacyMarshal.EnumTextAgreesOnLowValues`) and loses values above (`LegacyMarshal.EnumLowByteLosesValue`).
- LegacySerialize.SerializeMember: takes the write rule. The round trip `LegacyDeserialize.MemberRestores` is proved with the corrected rule; with the program's rule, `LegacyDeserialize.MemberRestoresAsWritten` covers values from 0 to 255 only.
- LegacyDeserialize.MemberRestores: proved for the corrected enum writer only; see `LegacyDeserialize.MemberRestoresAsWritten` for the program's writer on values from 0 to 255.
- RefCounting.SmartPtr.IsNull: models `operator==` against NULL only. The source compares the pointer with any `unsigned` cast to a pointer, and its `operator!=(unsigned)` is the negation; neither is modelled for other values.
- ReflLookup.GetClassDescVia: on a cycle of class aliases the source recurses forever, while the model returns none once its hop count runs out.
- ReflSerialize.SerializeAt: when a descriptor is nested in itself through parents or class members, the source recurses until the stack overflows. The model returns `Fatal(NestedTooDeep)` once `Depth`, the number of descriptors plus one, levels are used. The same holds for ReflSerialize.SerializeAsWritten and LegacySerialize.SerializeAt.
- LegacySerialize.SerializeAt: the older writer has the same depth cutoff, returning `Fatal(NestedTooDeep)` where the source overflows the stack.
- LegacyLookup.GetClassDescVia: on a cycle of class aliases the source recurses forever, while the model returns none once its hop count runs out.
- RefCounting.RefCounted: the count is a `nat`. The source's unsigned `m_refCount` wraps on overflow, which is not modelled.
- Fixed text buffers: the source reads names, types and values into 256-character buffers and the version into a 32-character one, and writes values through a 1024-character one, truncating longer text. The model keeps text whole.
- File I/O: opening, parsing and writing XML files is not modelled. The stream is the node tree itself.
- Name hashing: the hash is modelled as case folding with no collisions. The source's fixed-width hash can collide.
- Floating-point and string members: their marshalling is a parameter (`Codec`). It is not modelled.
- Object creation: the creation callback is a parameter, and allocation is not modelled.
- Versioning, finalize and conversion callbacks are parameters (`Hooks`). Their bodies belong to client code.
- `GetMember(index)` is an unfinished stub in both engines (it returns the first member) and is not modelled.
- The `DataStream` overloads of `Serialize` and `Deserialize` are declared in the headers but not defined in either `Reflection.cpp`, so they are not modelled.
- ReflObjects.ReflLibrary.RegisterClassDesc: requires that the descriptor is not registered yet. In the source each descriptor is a static object registered once by its constructor; a second registration would link the list into a cycle.
- LegacyObjects.LegacyLibrary.RegisterClassDesc: requires that the descriptor is not registered yet, for the same reason: a second registration of the static descriptor would link the list into a cycle.
- The older engine's header declares members that its `Reflection.cpp` does not define. Only the members defined in `Code/Libs/Reflection/Reflection.cpp` are modelled.

## Findings

| source | as written | input that shows it | evidently intended | confidence | as-written member | corrected member |
|---|---|---|---|---|---|---|
| trunk/Code/Libs/Reflection/Reflection.cpp:680-698 | the `const` `CastTo` computes the object's start only when the found parent's offset is not 0, so a parent at offset 0 gives NULL | a cast whose given type is a parent stored at offset 0 of the object, e.g. the first base of a class with two bases | the cast succeeds as the non-const `CastRefl` does | not executed | ReflCasting.ConstCastLosesZeroOffsetParts | ReflCasting.CastRefl |
| trunk/Code/Libs/Reflection/Reflection.cpp:170-182 | the enum writer looks the name up by the member's first byte (`*data`), not by the `int` it holds | an enum with the values 0 and 256, a member holding 256 | the member's whole value selects its name | not executed | ReflMarshal.EnumLowByteLosesValue | ReflMarshal.EnumRoundTrip |
| Code/Libs/Reflection/Reflection.cpp:145-155 | the older engine's enum writer looks the name up by the member's first byte too | an enum with the values 0 and 256, a member holding 256 | the member's whole value selects its name | not executed | LegacyMarshal.EnumLowByteLosesValue | LegacyMarshal.EnumRoundTrip |
| trunk/Code/Libs/Reflection/Reflection.cpp:734-741 | `ClearAllTempBindings` clears only the members the class declares itself, while `RegisterTempBinding` binds any member `FindMember` finds, inherited ones included | a binding made through a derived class to a member inherited from its parent | every binding reachable from the class is cleared | not executed | ReflBindings.ClearLocalMissesInherited | ReflBindings.ClearReachableUnbinds |
| Code/Core/Ref.h:83-93 | `SmartPtr` assignment releases the old object and sets the pointer to NULL before it reads the right-hand side | a pointer assigned to itself while it holds the only reference | self-assignment leaves the pointer and its object unchanged | not executed | RefCounting.SelfAssignClears | RefCounting.AssignCorrected |
| trunk/Code/Libs/Reflection/Reflection.cpp:523-555 | an embedded class member is written from the outer object's `ReflClass` pointer, shifted by the embedded descriptor's offsets | an `Outer` embedding at offset 0 an `Inner` whose `ReflClass` sits 4 bytes in | the member's fields are written from where the reader stores them | not executed | ReflEmbedded.EmbeddedMemberMisread | ReflEmbedded.EmbeddedRoundTrip |
| trunk/Code/Libs/Reflection/Reflection.h:276-306 | in a namespaced class, the descriptor is registered under the qualified name `ns::name`, while `s_className` hashes the bare name the class's methods look the descriptor up by | a class declared inside a namespace | the class is found under the name it was registered with | not executed | LegacyClassMacros.NamespacedClassNotFound | LegacyClassMacros.QualifiedClassFound |
