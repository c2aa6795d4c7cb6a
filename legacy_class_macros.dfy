/** What `REFL_IMPL_CLASS_INTERNAL` gives every reflected class of the older
    engine: a static `s_className` hash and `Serialize(stream)` /
    `Deserialize(stream)` members that look the class's descriptor up by
    that hash and hand the object to it. A class declared with
    `REFL_IMPL_CLASS_BEGIN_NAMESPACE(base, ns, name)` names its descriptor
    `ns::name` but hashes the bare `name` into `s_className`. */
module LegacyClassMacros {
  import opened Common
  import opened PrimitiveTable
  import opened ReflData
  import opened LegacyData
  import opened LegacyLookup
  import opened LegacySerialize
  import opened LegacyDeserialize
  import opened Stream

  /** A member call through the NULL that `GetClassDesc` returns for a
      class that is not registered. */
  const NullDesc := "member call through a NULL descriptor"

  /** The name `REFL_IMPL_CLASS_BEGIN` (no namespace) or
      `REFL_IMPL_CLASS_BEGIN_NAMESPACE` gives the descriptor. */
  function QualifiedName(ns: Option<string>, name: string): string
  {
    if ns.Some? then ns.value + "::" + name else name
  }

  /** `s_className` as written: the bare class name, namespace or not. */
  function ClassNameHashAsWritten(ns: Option<string>, name: string): (h: Hash)
    ensures ns.None? ==> h == NameHash(QualifiedName(ns, name))
  {
    NameHash(name)
  }

  /** `s_className` hashing the name the descriptor is registered under. */
  function ClassNameHash(ns: Option<string>, name: string): (h: Hash)
    ensures h == NameHash(QualifiedName(ns, name))
    ensures ns.None? ==> h == ClassNameHashAsWritten(ns, name)
  {
    NameHash(QualifiedName(ns, name))
  }

  /** `name::Serialize(stream)`: the descriptor `s_className` finds writes
      the object. */
  function ClassSerialize(lib: Library, className: Hash, mem: Memory, inst: int, codec: Codec): (r: Result<Node>)
    ensures GetClassDesc(lib, className).None? ==> r == Fatal(NullDesc)
    ensures GetClassDesc(lib, className).Some? ==> r == SerializeAsWritten(lib, GetClassDesc(lib, className).value, mem, inst, codec)
  {
    match GetClassDesc(lib, className)
    case None => Fatal(NullDesc)
    case Some(k) => SerializeAsWritten(lib, k, mem, inst, codec)
  }

  /** `name::Deserialize(stream)`: the descriptor `s_className` finds reads
      the object. */
  function ClassDeserialize(lib: Library, className: Hash, n: Node, mem: Memory, inst: int, hooks: Hooks)
    : (r: Result<Memory>)
    ensures GetClassDesc(lib, className).None? ==> r == Fatal(NullDesc)
    ensures GetClassDesc(lib, className).Some? ==>
              r == Deserialize(lib, GetClassDesc(lib, className).value, n, mem, inst, hooks)
  {
    match GetClassDesc(lib, className)
    case None => Fatal(NullDesc)
    case Some(k) => Deserialize(lib, k, n, mem, inst, hooks)
  }

  /** A descriptor at position `k` or later with hash `h` stops the scan
      at or before `k`. */
  lemma {:induction false} DescIndexReaches(ds: seq<ClassDesc>, h: Hash, i: nat, k: nat)
    requires i <= k < |ds| && ds[k].hash == h
    ensures DescIndexFrom(ds, h, i).Some? && DescIndexFrom(ds, h, i).value <= k
    decreases k - i
  {
    if ds[i].hash != h {
      DescIndexReaches(ds, h, i + 1, k);
    }
  }

  /** A registered descriptor is found by the hash of its own name, and
      what is found has that hash: looking a class up by the name it is
      registered under never calls through NULL. */
  lemma RegisteredClassFound(lib: Library, k: nat)
    requires k < |lib.descs|
    ensures GetClassDesc(lib, lib.descs[k].hash).Some?
    ensures lib.descs[GetClassDesc(lib, lib.descs[k].hash).value].hash == lib.descs[k].hash
  {
    DescIndexReaches(lib.descs, lib.descs[k].hash, 0, k);
  }

  /** With `s_className` hashing the qualified name, a class whose
      descriptor is registered under the name its declaration gives it
      always reaches a descriptor of that name, namespace or not, and its
      `Serialize` and `Deserialize` are that descriptor's. */
  lemma QualifiedClassFound(lib: Library, k: nat, ns: Option<string>, name: string,
                            mem: Memory, inst: int, codec: Codec, n: Node, hooks: Hooks)
    requires k < |lib.descs| && lib.descs[k].hash == NameHash(QualifiedName(ns, name))
    ensures GetClassDesc(lib, ClassNameHash(ns, name)).Some?
    ensures var j := GetClassDesc(lib, ClassNameHash(ns, name)).value;
            lib.descs[j].hash == lib.descs[k].hash &&
            ClassSerialize(lib, ClassNameHash(ns, name), mem, inst, codec) == SerializeAsWritten(lib, j, mem, inst, codec) &&
            ClassDeserialize(lib, ClassNameHash(ns, name), n, mem, inst, hooks) == Deserialize(lib, j, n, mem, inst, hooks)
  {
    RegisteredClassFound(lib, k);
  }

  // ---------------------------------------------------------------------
  // A class in a namespace

  /** A library holding one class `Foo` declared in namespace `ns`. */
  function NamespacedLibrary(): Library
  {
    Library([ConstructDesc(QualifiedName(Some("ns"), "Foo"), 4, 0)], [])
  }

  /** As written, `Foo::Serialize` and `Foo::Deserialize` look up the hash
      of "Foo", which no descriptor has, and call through NULL; the hash of
      "ns::Foo" finds the descriptor. */
  lemma NamespacedClassNotFound(mem: Memory, inst: int, codec: Codec, n: Node, hooks: Hooks)
    ensures ClassSerialize(NamespacedLibrary(), ClassNameHashAsWritten(Some("ns"), "Foo"), mem, inst, codec) ==
            Fatal(NullDesc)
    ensures ClassDeserialize(NamespacedLibrary(), ClassNameHashAsWritten(Some("ns"), "Foo"), n, mem, inst, hooks) ==
            Fatal(NullDesc)
    ensures GetClassDesc(NamespacedLibrary(), ClassNameHash(Some("ns"), "Foo")) == Some(0)
  {
    var lib := NamespacedLibrary();
    assert Fold("Foo") == "foo";
    assert Fold("ns::Foo") == "ns::foo";
    assert QualifiedName(Some("ns"), "Foo") == "ns::Foo";
    assert DescIndexFrom(lib.descs, NameHash("Foo"), 1) == None;
    assert DescIndexFrom(lib.descs, NameHash("Foo"), 0) == None;
  }
}
