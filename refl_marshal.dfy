/** The text form of one member's value, as `s_typeDesc[index].toString`
    and `fromString` produce and read it, including the enum marshalers,
    which look the value or the name up in the enum's descriptor. */
module ReflMarshal {
  import opened Common
  import opened PrimitiveTable
  import opened ReflData
  import opened ReflLookup

  const UnregisteredEnum := "Unregistered enum type"
  const UnhandledEnumValue := "Unhandled enum value"
  const UnregisteredEnumValue := "Unregistered enum value"

  /** An enum member's storage is an `int`: its four bytes read as a signed
      32-bit value. */
  function StoredEnumValue(c: Cell): (r: int)
    ensures InRange(Int32, r)
  {
    Wrap(Int32, IntOf(c))
  }

  /** Enum `ConvertToString` as written: the value handed to
      `GetEnumValue` is `*data` with `data` a `byte` pointer, so only the
      low byte of the stored `int` is looked up. */
  function EnumTextAsWritten(reg: Registry, typeHash: Hash, c: Cell): (r: Result<string>)
    ensures GetClassDesc(reg, typeHash).None? ==> r == Fatal(UnregisteredEnum)
    ensures r.Ok? <==>
              GetClassDesc(reg, typeHash).Some? &&
              EnumByValue(reg.descs[GetClassDesc(reg, typeHash).value], Wrap(UInt8, IntOf(c))).Some?
  {
    match GetClassDesc(reg, typeHash)
    case None => Fatal(UnregisteredEnum)
    case Some(e) =>
      match EnumByValue(reg.descs[e], Wrap(UInt8, IntOf(c)))
      case None => Fatal(UnhandledEnumValue)
      case Some(i) => Ok(reg.descs[e].enumValues[i].name)
  }

  /** Enum `ConvertToString` reading the whole stored `int`: the display
      name of the first enum value equal to it. */
  function EnumText(reg: Registry, typeHash: Hash, c: Cell): (r: Result<string>)
    ensures GetClassDesc(reg, typeHash).None? ==> r == Fatal(UnregisteredEnum)
    ensures r.Ok? <==>
              GetClassDesc(reg, typeHash).Some? &&
              EnumByValue(reg.descs[GetClassDesc(reg, typeHash).value], StoredEnumValue(c)).Some?
    ensures r.Ok? ==>
              var vs := reg.descs[GetClassDesc(reg, typeHash).value].enumValues;
              exists i :: 0 <= i < |vs| && vs[i].value == StoredEnumValue(c) && vs[i].name == r.value
  {
    match GetClassDesc(reg, typeHash)
    case None => Fatal(UnregisteredEnum)
    case Some(e) =>
      match EnumByValue(reg.descs[e], StoredEnumValue(c))
      case None => Fatal(UnhandledEnumValue)
      case Some(i) => Ok(reg.descs[e].enumValues[i].name)
  }

  /** Enum `ConvertFromString`: the value of the first enum value whose
      display name matches the text, ignoring case, within `len`
      characters, stored as an `int`. */
  function EnumParse(reg: Registry, typeHash: Hash, text: string, len: nat): (r: Result<Cell>)
    ensures GetClassDesc(reg, typeHash).None? ==> r == Fatal(UnregisteredEnum)
    ensures r.Ok? <==>
              GetClassDesc(reg, typeHash).Some? &&
              EnumByName(reg.descs[GetClassDesc(reg, typeHash).value], text, len).Some?
    ensures r.Ok? ==> r.value.Int? && InRange(Int32, r.value.v)
  {
    match GetClassDesc(reg, typeHash)
    case None => Fatal(UnregisteredEnum)
    case Some(e) =>
      match EnumByName(reg.descs[e], text, len)
      case None => Fatal(UnregisteredEnumValue)
      case Some(i) => Ok(Int(Wrap(Int32, reg.descs[e].enumValues[i].value)))
  }

  /** `toString` of the member's kind; an enum member's type hash names its
      enum descriptor. */
  function MemberText(reg: Registry, k: Kind, typeHash: Hash, c: Cell, codec: Codec): (r: Result<string>)
    ensures k != Enum ==> r == ValueText(k, c, codec)
    ensures k == Enum ==> r == EnumText(reg, typeHash, c)
  {
    if k == Enum then EnumText(reg, typeHash, c) else ValueText(k, c, codec)
  }

  /** `fromString` of the member's kind, reading at most `len` characters
      of an enum name. */
  function MemberParse(reg: Registry, k: Kind, typeHash: Hash, text: string, len: nat, current: Cell,
                       garbage: int, codec: Codec): (r: Result<Cell>)
    ensures k != Enum ==> r == ParseValue(k, text, current, garbage, codec)
    ensures k == Enum ==> r == EnumParse(reg, typeHash, text, len)
  {
    if k == Enum then EnumParse(reg, typeHash, text, len) else ParseValue(k, text, current, garbage, codec)
  }

  /** Enum values whose display names cannot be told apart within `len`
      characters carry the same value, as the entries added by
      `REFL_ENUM_ALIAS` do. */
  predicate NamesDetermineValues(d: Desc, len: nat)
  {
    forall i, j ::
      (0 <= i < |d.enumValues| && 0 <= j < |d.enumValues| &&
       EqualIgnoringCaseWithin(d.enumValues[i].name, d.enumValues[j].name, len)) ==>
      d.enumValues[i].value == d.enumValues[j].value
  }

  /** The enum values a member of this enum type can hold and write. */
  predicate Enumerated(reg: Registry, typeHash: Hash, v: int)
  {
    GetClassDesc(reg, typeHash).Some? &&
    InRange(Int32, v) &&
    EnumByValue(reg.descs[GetClassDesc(reg, typeHash).value], v).Some?
  }

  /** An enumerated value survives being written by name and read back. */
  lemma EnumRoundTrip(reg: Registry, typeHash: Hash, v: int, len: nat)
    requires Enumerated(reg, typeHash, v)
    requires NamesDetermineValues(reg.descs[GetClassDesc(reg, typeHash).value], len)
    ensures EnumText(reg, typeHash, Int(v)).Ok?
    ensures EnumParse(reg, typeHash, EnumText(reg, typeHash, Int(v)).value, len) == Ok(Int(v))
  {
    var e := GetClassDesc(reg, typeHash).value;
    var d := reg.descs[e];
    WrapInRange(Int32, v);
    var i := EnumByValue(d, v).value;
    var name := d.enumValues[i].name;
    assert EnumText(reg, typeHash, Int(v)) == Ok(name);
    assert EqualIgnoringCaseWithin(name, d.enumValues[i].name, len);
    EnumByNameFirst(d, name, len);
    var j := EnumByName(d, name, len).value;
    assert d.enumValues[j].value == v;
  }

  /** The values a member of kind `k` can hold and write as text: booleans
      0 and 1, integers of the kind's width, and enumerated values. */
  predicate Representable(reg: Registry, k: Kind, typeHash: Hash, v: int)
  {
    (IsIntegral(k) && InRange(k, v) && (k == Bool ==> v in {0, 1})) ||
    (k == Enum && Enumerated(reg, typeHash, v))
  }

  /** Every representable value survives `toString` followed by
      `fromString`, whatever the storage held before. */
  lemma MemberRoundTrip(reg: Registry, k: Kind, typeHash: Hash, v: int, len: nat, current: Cell,
                        garbage: int, codec: Codec)
    requires Representable(reg, k, typeHash, v)
    requires k == Enum ==> NamesDetermineValues(reg.descs[GetClassDesc(reg, typeHash).value], len)
    ensures MemberText(reg, k, typeHash, Int(v), codec).Ok?
    ensures MemberParse(reg, k, typeHash, MemberText(reg, k, typeHash, Int(v), codec).value, len,
                        current, garbage, codec) == Ok(Int(v))
  {
    if k == Enum {
      EnumRoundTrip(reg, typeHash, v, len);
    } else {
      IntegralRoundTrip(k, v, current, garbage, codec);
    }
  }

  /** For stored values 0 to 255 the byte read and the `int` read agree. */
  lemma EnumTextAgreesOnLowValues(reg: Registry, typeHash: Hash, c: Cell)
    requires 0 <= IntOf(c) < 0x100
    ensures EnumTextAsWritten(reg, typeHash, c) == EnumText(reg, typeHash, c)
  {
    WrapInRange(UInt8, IntOf(c));
    WrapInRange(Int32, IntOf(c));
  }

  // ---------------------------------------------------------------------
  // An enum with a value above 255

  const WideEnumName := "WideEnum"

  /** An enum type with the values 0 (`Small`) and 256 (`Large`). */
  function WideEnum(): Registry
  {
    var d := NewDesc(WideEnumName, 0, 0, 0, None);
    Registry([d.(enumValues := [EnumEntry(256, "LARGE", "Large"), EnumEntry(0, "SMALL", "Small")])], [])
  }

  /** A member holding `Large` is written as `Small` and so reads back as 0;
      reading the whole `int` writes `Large`, which reads back as 256. */
  lemma EnumLowByteLosesValue()
    ensures EnumTextAsWritten(WideEnum(), NameHash(WideEnumName), Int(256)) == Ok("Small")
    ensures EnumParse(WideEnum(), NameHash(WideEnumName), "Small", 256) == Ok(Int(0))
    ensures EnumText(WideEnum(), NameHash(WideEnumName), Int(256)) == Ok("Large")
    ensures EnumParse(WideEnum(), NameHash(WideEnumName), "Large", 256) == Ok(Int(256))
  {
    var reg := WideEnum();
    var h := NameHash(WideEnumName);
    GetClassDescDirect(reg, 0);
    assert GetClassDesc(reg, h) == Some(0);
    var d := reg.descs[0];
    assert Wrap(UInt8, 256) == 0;
    assert EnumByValue(d, 0) == Some(1);
    WrapInRange(Int32, 256);
    assert EnumByValue(d, 256) == Some(0);
    assert Fold("Small") == "small" && Fold("Large") == "large";
    assert !EqualIgnoringCaseWithin("Small", "Large", 256);
    assert EnumByName(d, "Small", 256) == Some(1);
    assert EnumByName(d, "Large", 256) == Some(0);
    WrapInRange(Int32, 0);
  }
}
