/** The text form of one member's value in the older engine. The type table
    is the one both engines share; what differs is the enum marshalers,
    which look the value or the name up in the member's own enum values
    (stored `unsigned`) rather than in an enum descriptor. */
module LegacyMarshal {
  import opened Common
  import opened PrimitiveTable
  import opened ReflData
  import opened LegacyData
  import opened LegacyLookup
  import ReflMarshal

  const UnhandledEnumValue := "Unhandled enum value"

  /** Enum `ConvertToString` as written: `*data` reads the first byte of
      the stored `int`, so only its low byte is looked up. */
  function EnumTextAsWritten(m: LegacyMember, c: Cell): (r: Result<string>)
    ensures r.Ok? <==> EnumByValue(m, Wrap(UInt8, IntOf(c))).Some?
    ensures r.Fatal? ==> r.reason == UnhandledEnumValue
  {
    match EnumByValue(m, Wrap(UInt8, IntOf(c)))
    case None => Fatal(UnhandledEnumValue)
    case Some(i) => Ok(m.enumValues[i].name)
  }

  /** Enum `ConvertToString` reading the whole stored `int`: the name of
      the first enum value equal to it as an `unsigned`. */
  function EnumText(m: LegacyMember, c: Cell): (r: Result<string>)
    ensures r.Ok? <==> EnumByValue(m, ReflMarshal.StoredEnumValue(c)).Some?
    ensures r.Fatal? ==> r.reason == UnhandledEnumValue
    ensures r.Ok? ==>
              exists i :: 0 <= i < |m.enumValues| &&
                m.enumValues[i].value == Wrap(UInt32, ReflMarshal.StoredEnumValue(c)) && m.enumValues[i].name == r.value
  {
    match EnumByValue(m, ReflMarshal.StoredEnumValue(c))
    case None => Fatal(UnhandledEnumValue)
    case Some(i) => Ok(m.enumValues[i].name)
  }

  /** Enum `ConvertFromString`: the first enum value whose name matches the
      text within `len` characters, ignoring case; its `unsigned` value is
      stored into the `int`. */
  function EnumParse(m: LegacyMember, text: string, len: nat): (r: Result<Cell>)
    ensures r.Ok? <==> EnumByName(m, text, len).Some?
    ensures r.Fatal? ==> r.reason == UnhandledEnumValue
    ensures r.Ok? ==>
              r.value.Int? && InRange(Int32, r.value.v) &&
              exists i :: 0 <= i < |m.enumValues| &&
                EqualIgnoringCaseWithin(text, m.enumValues[i].name, len) &&
                r.value.v == Wrap(Int32, m.enumValues[i].value)
  {
    match EnumByName(m, text, len)
    case None => Fatal(UnhandledEnumValue)
    case Some(i) => Ok(Int(Wrap(Int32, m.enumValues[i].value)))
  }

  /** `s_typeDesc[Type()].toString` on the member's storage. */
  function MemberText(m: LegacyMember, c: Cell, codec: Codec): (r: Result<string>)
    ensures m.index != Enum ==> r == ValueText(m.index, c, codec)
    ensures m.index == Enum ==> r == EnumText(m, c)
  {
    if m.index == Enum then EnumText(m, c) else ValueText(m.index, c, codec)
  }

  /** `s_typeDesc[k].fromString(m, ...)`: kind `k` is the member's own kind
      when its value is read, or the old type when a value is converted;
      an enum is looked up among `m`'s enum values either way. */
  function MemberParse(m: LegacyMember, k: Kind, text: string, len: nat, current: Cell, garbage: int,
                       codec: Codec): (r: Result<Cell>)
    ensures k != Enum ==> r == ParseValue(k, text, current, garbage, codec)
    ensures k == Enum ==> r == EnumParse(m, text, len)
  {
    if k == Enum then EnumParse(m, text, len) else ParseValue(k, text, current, garbage, codec)
  }

  /** Enum values whose names cannot be told apart within `len` characters
      carry the same value, as the entries `REFL_ENUM_ALIAS` adds do. */
  predicate NamesDetermineValues(m: LegacyMember, len: nat)
  {
    forall i, j ::
      (0 <= i < |m.enumValues| && 0 <= j < |m.enumValues| &&
       EqualIgnoringCaseWithin(m.enumValues[i].name, m.enumValues[j].name, len)) ==>
      m.enumValues[i].value == m.enumValues[j].value
  }

  /** An `int` stored as `unsigned` and read back as `int` is unchanged. */
  lemma SignedUnsignedSigned(v: int)
    requires InRange(Int32, v)
    ensures Wrap(Int32, Wrap(UInt32, v)) == v
  {
    if v < 0 {
      assert Wrap(UInt32, v) == v + 0x1_0000_0000;
      assert (v + 0x1_0000_0000) % 0x1_0000_0000 == v + 0x1_0000_0000;
    } else {
      WrapInRange(UInt32, v);
      WrapInRange(Int32, v);
    }
  }

  /** The values an enum member can hold and write: `int`s with an enum
      value. */
  predicate Enumerated(m: LegacyMember, v: int)
  {
    InRange(Int32, v) && EnumByValue(m, v).Some?
  }

  /** An enumerated value survives being written by name and read back. */
  lemma EnumRoundTrip(m: LegacyMember, v: int, len: nat)
    requires Enumerated(m, v) && NamesDetermineValues(m, len)
    ensures EnumText(m, Int(v)).Ok?
    ensures EnumParse(m, EnumText(m, Int(v)).value, len) == Ok(Int(v))
  {
    WrapInRange(Int32, v);
    assert ReflMarshal.StoredEnumValue(Int(v)) == v;
    var i := EnumByValue(m, v).value;
    var name := m.enumValues[i].name;
    assert EnumText(m, Int(v)) == Ok(name);
    assert EqualIgnoringCaseWithin(name, m.enumValues[i].name, len);
    ReflLookup.NameIndexFromFirst(m.enumValues, name, len, 0);
    var j := EnumByName(m, name, len).value;
    assert m.enumValues[j].value == Wrap(UInt32, v);
    SignedUnsignedSigned(v);
  }

  /** The values a member of its kind can hold and write as text. */
  predicate Representable(m: LegacyMember, v: int)
  {
    (IsIntegral(m.index) && InRange(m.index, v) && (m.index == Bool ==> v in {0, 1})) ||
    (m.index == Enum && Enumerated(m, v))
  }

  /** Every representable value survives `toString` followed by
      `fromString` of the member's own kind, whatever was stored before. */
  lemma MemberRoundTrip(m: LegacyMember, v: int, len: nat, current: Cell, garbage: int, codec: Codec)
    requires Representable(m, v)
    requires m.index == Enum ==> NamesDetermineValues(m, len)
    ensures MemberText(m, Int(v), codec).Ok?
    ensures MemberParse(m, m.index, MemberText(m, Int(v), codec).value, len, current, garbage, codec) == Ok(Int(v))
  {
    if m.index == Enum {
      EnumRoundTrip(m, v, len);
    } else {
      IntegralRoundTrip(m.index, v, current, garbage, codec);
    }
  }

  /** For stored values 0 to 255 the byte read and the `int` read agree. */
  lemma EnumTextAgreesOnLowValues(m: LegacyMember, c: Cell)
    requires 0 <= IntOf(c) < 0x100
    ensures EnumTextAsWritten(m, c) == EnumText(m, c)
  {
    WrapInRange(UInt8, IntOf(c));
    WrapInRange(Int32, IntOf(c));
  }

  // ---------------------------------------------------------------------
  // A member whose enum has a value above 255

  /** An enum member with the values 0 (`Small`) and 256 (`Large`), after
      `Finalize`. */
  function WideMember(): LegacyMember
  {
    ConstructMember("mode", "Mode", 4, 0).(enumValues := [LegacyEnumEntry(0, "Small"), LegacyEnumEntry(256, "Large")])
  }

  /** A member holding `Large` is written as `Small` and so reads back as 0;
      reading the whole `int` writes `Large`, which reads back as 256. */
  lemma EnumLowByteLosesValue()
    ensures EnumTextAsWritten(WideMember(), Int(256)) == Ok("Small")
    ensures EnumParse(WideMember(), "Small", 256) == Ok(Int(0))
    ensures EnumText(WideMember(), Int(256)) == Ok("Large")
    ensures EnumParse(WideMember(), "Large", 256) == Ok(Int(256))
  {
    WideValues();
    WideByValue();
    WideByName();
    WrapInRange(Int32, 0);
    WrapInRange(Int32, 256);
  }

  lemma WideValues()
    ensures WideMember().enumValues[0].value == 0 && WideMember().enumValues[1].value == 256
    ensures WideMember().enumValues[0].name == "Small" && WideMember().enumValues[1].name == "Large"
  {
    WrapInRange(UInt32, 0);
    WrapInRange(UInt32, 256);
  }

  /** The low byte of 256 is 0, the value of `Small`. */
  lemma WideByValue()
    ensures EnumByValue(WideMember(), Wrap(UInt8, 256)) == Some(0)
    ensures EnumByValue(WideMember(), ReflMarshal.StoredEnumValue(Int(256))) == Some(1)
  {
    WideValues();
    assert Wrap(UInt8, 256) == 0;
    WrapInRange(UInt32, 0);
    WrapInRange(Int32, 256);
    WrapInRange(UInt32, 256);
  }

  lemma WideByName()
    ensures EnumByName(WideMember(), "Small", 256) == Some(0)
    ensures EnumByName(WideMember(), "Large", 256) == Some(1)
  {
    WideValues();
    assert Fold("Small") == "small" && Fold("Large") == "large";
    assert !EqualIgnoringCaseWithin("Large", "Small", 256);
  }
}
