/** The table of primitive member kinds both engines share: one entry per kind
    with its type name (whose hash identifies it in a document), its size, its
    `printf`/`scanf` format and its pair of text marshalers. Sizes are those of
    a 32-bit target. */
module PrimitiveTable {
  import opened Common
  import opened TextFormat

  /** The table entries in index order (`REFL_INDEX_BOOL` .. `REFL_INDEX_QUATERNION`).
      `REFL_INDEX_ENDTYPE`, which is not an entry, is `None` where it occurs. */
  datatype Kind =
    | Bool | Int8 | UInt8 | Int16 | UInt16 | Int32 | UInt32 | Int64 | UInt64
    | Int128 | UInt128 | Float16 | Float32 | String | Class | Enum
    | FixedArray | VarArray | Pointer | Color | Angle | Percentage
    | EulerAngles | Vec3 | Vec4 | Quaternion

  const Table: seq<Kind> :=
    [Bool, Int8, UInt8, Int16, UInt16, Int32, UInt32, Int64, UInt64,
     Int128, UInt128, Float16, Float32, String, Class, Enum,
     FixedArray, VarArray, Pointer, Color, Angle, Percentage,
     EulerAngles, Vec3, Vec4, Quaternion]

  function TypeName(k: Kind): string
  {
    match k
    case Bool => "bool"
    case Int8 => "int8"
    case UInt8 => "uint8"
    case Int16 => "int16"
    case UInt16 => "uint16"
    case Int32 => "int32"
    case UInt32 => "uint32"
    case Int64 => "int64"
    case UInt64 => "uint64"
    case Int128 => "int128"
    case UInt128 => "uint128"
    case Float16 => "float16"
    case Float32 => "float32"
    case String => "chargr *"
    case Class => "class"
    case Enum => "enum"
    case FixedArray => "fixedarray"
    case VarArray => "vararray"
    case Pointer => "pointer"
    case Color => "color"
    case Angle => "angle"
    case Percentage => "percentage"
    case EulerAngles => "eulers"
    case Vec3 => "vec3"
    case Vec4 => "vec4"
    case Quaternion => "quaternion"
  }

  /** `typeSize`: the size in bytes the member registration is checked against. */
  function TypeSize(k: Kind): nat
  {
    match k
    case Bool => 1
    case Int8 => 1
    case UInt8 => 1
    case Int16 => 2
    case UInt16 => 2
    case Int32 => 4
    case UInt32 => 4
    case Int64 => 8
    case UInt64 => 8
    case Int128 => 16
    case UInt128 => 16
    case Float16 => 2
    case Float32 => 4
    case String => 4
    case Class => 0
    case Enum => 4
    case FixedArray => 0
    case VarArray => 0
    case Pointer => 4
    case Color => 16
    case Angle => 4
    case Percentage => 4
    case EulerAngles => 12
    case Vec3 => 12
    case Vec4 => 16
    case Quaternion => 16
  }

  /** The format the generic marshalers pass to `printf`/`scanf`; `None` is a
      NULL format. */
  function Format(k: Kind): Option<string>
  {
    match k
    case Int16 => Some("%hd")
    case UInt16 => Some("%hu")
    case Int32 => Some("%d")
    case UInt32 => Some("%u")
    case Int64 => Some("%lld")
    case UInt64 => Some("%llu")
    case Float16 => Some("%f")
    case Float32 => Some("%f")
    case String => Some("%s")
    case _ => None
  }

  /** The hash of a kind's type name. Every type name is already lower
      case, so the hash holds the name itself (`TypeHashIsNameHash`). */
  function TypeHash(k: Kind): Hash
  {
    Hash(TypeName(k))
  }

  lemma TypeHashIsNameHash(k: Kind)
    ensures TypeHash(k) == NameHash(TypeName(k))
  {
    LowerCaseNames(k);
  }

  /** `DetermineTypeIndex`: the first table entry whose type-name hash is `h`,
      `None` (`REFL_INDEX_ENDTYPE`) when there is none. */
  function DetermineTypeIndex(h: Hash): (r: Option<Kind>)
    ensures r.Some? ==> TypeHash(r.value) == h
  {
    FirstEntry(h, 0)
  }

  /** `REFL_INDEX_ENDTYPE` comes back exactly for hashes of no type name. */
  lemma DetermineTypeIndexNone(h: Hash)
    ensures DetermineTypeIndex(h).None? <==> forall k: Kind :: TypeHash(k) != h
  {
    if DetermineTypeIndex(h).None? {
      forall k: Kind ensures TypeHash(k) != h {
        EveryKindInTable(k);
      }
    }
  }

  function FirstEntry(h: Hash, i: nat): (r: Option<Kind>)
    requires i <= |Table|
    ensures r.Some? ==> TypeHash(r.value) == h
    ensures r.None? ==> forall j :: i <= j < |Table| ==> TypeHash(Table[j]) != h
    decreases |Table| - i
  {
    if i == |Table| then None
    else if TypeHash(Table[i]) == h then Some(Table[i])
    else FirstEntry(h, i + 1)
  }

  lemma EveryKindInTable(k: Kind)
    ensures k in Table
  {
  }

  /** No two entries share a type name, even ignoring case, so a kind's own
      type name always determines that kind. */
  lemma DetermineTypeIndexOfTypeName(k: Kind)
    ensures DetermineTypeIndex(TypeHash(k)) == Some(k)
  {
    var r := DetermineTypeIndex(TypeHash(k));
    if r.None? {
      EveryKindInTable(k);
      assert false;
    } else {
      TypeHashInjective(r.value, k);
    }
  }

  lemma TypeHashInjective(a: Kind, b: Kind)
    requires TypeHash(a) == TypeHash(b)
    ensures a == b
  {
    if a != b {
      DistinctFoldedNames(a, b);
      LowerCaseNames(a);
      LowerCaseNames(b);
    }
  }

  /** Two different entries differ in length or at some position, and every
      type name is already lower case. */
  lemma DistinctFoldedNames(a: Kind, b: Kind)
    requires a != b
    ensures Fold(TypeName(a)) != Fold(TypeName(b))
  {
    LowerCaseNames(a);
    LowerCaseNames(b);
    if a.Bool? || a.Int8? || a.UInt8? || a.Int16? || a.UInt16? || a.Int32? || a.UInt32? || a.Int64? || a.UInt64? {
      DistinctIntegralNames(a, b);
    } else {
      DistinctOtherNames(a, b);
    }
  }

  lemma DistinctIntegralNames(a: Kind, b: Kind)
    requires a.Bool? || a.Int8? || a.UInt8? || a.Int16? || a.UInt16? || a.Int32? || a.UInt32? || a.Int64? || a.UInt64?
    requires a != b
    ensures TypeName(a) != TypeName(b)
  {
  }

  lemma DistinctOtherNames(a: Kind, b: Kind)
    requires !(a.Bool? || a.Int8? || a.UInt8? || a.Int16? || a.UInt16? || a.Int32? || a.UInt32? || a.Int64? || a.UInt64?)
    requires a != b
    ensures TypeName(a) != TypeName(b)
  {
  }

  lemma LowerCaseNames(k: Kind)
    ensures Fold(TypeName(k)) == TypeName(k)
  {
    if k.Bool? || k.Int8? || k.UInt8? || k.Int16? || k.UInt16? || k.Int32? || k.UInt32? || k.Int64? || k.UInt64? {
      LowerCaseIntegralNames(k);
    } else {
      LowerCaseOtherNames(k);
    }
    NoUpperFolds(TypeName(k));
  }

  lemma LowerCaseIntegralNames(k: Kind)
    requires k.Bool? || k.Int8? || k.UInt8? || k.Int16? || k.UInt16? || k.Int32? || k.UInt32? || k.Int64? || k.UInt64?
    ensures forall i :: 0 <= i < |TypeName(k)| ==> !('A' <= TypeName(k)[i] <= 'Z')
  {
  }

  lemma LowerCaseOtherNames(k: Kind)
    requires !(k.Bool? || k.Int8? || k.UInt8? || k.Int16? || k.UInt16? || k.Int32? || k.UInt32? || k.Int64? || k.UInt64?)
    ensures forall i :: 0 <= i < |TypeName(k)| ==> !('A' <= TypeName(k)[i] <= 'Z')
  {
  }

  /** Folding a name with no upper-case letter leaves it as it is. */
  lemma NoUpperFolds(n: string)
    requires forall i :: 0 <= i < |n| ==> !('A' <= n[i] <= 'Z')
    ensures Fold(n) == n
  {
  }

  /** `TypeMatches`: an enum member matches only its own enum type; any other
      member matches the type name of its table entry. */
  predicate TypeMatches(k: Kind, given: Hash, memberType: Hash)
  {
    if k == Enum then given == memberType else given == TypeHash(k)
  }

  /** `GetTypeName`: the name written as a member's `Type`. An enum member
      writes the name of its enum descriptor, which must be registered. */
  function GetTypeName(k: Kind, enumDescName: Option<string>): (r: Result<string>)
    ensures k != Enum ==> r == Ok(TypeName(k))
    ensures k == Enum ==> (r.Ok? <==> enumDescName.Some?)
    ensures k == Enum && enumDescName.Some? ==> r.value == enumDescName.value
  {
    if k == Enum then
      if enumDescName.None? then Fatal("Unregistered enum type") else Ok(enumDescName.value)
    else Ok(TypeName(k))
  }

  // ---------------------------------------------------------------------
  // Storage and marshaling

  /** What one member's storage holds: an integer (booleans, integers, enums
      and the bit patterns of the other scalars) or the type stamp of a
      `ReflClass` sub-object. */
  datatype Cell = Int(v: int) | Stamp(h: Hash)

  function IntOf(c: Cell): int
  {
    if c.Int? then c.v else 0
  }

  /** Booleans and the eight integer kinds, whose text forms are modelled. */
  predicate IsIntegral(k: Kind)
  {
    k in {Bool, Int8, UInt8, Int16, UInt16, Int32, UInt32, Int64, UInt64}
  }

  predicate Signed(k: Kind)
  {
    k in {Int8, Int16, Int32, Int64}
  }

  /** 2 to the number of bits of the kind. */
  function Modulus(k: Kind): nat
    requires IsIntegral(k)
  {
    if k in {Bool, Int8, UInt8} then 0x100
    else if k in {Int16, UInt16} then 0x1_0000
    else if k in {Int32, UInt32} then 0x1_0000_0000
    else 0x1_0000_0000_0000_0000
  }

  predicate InRange(k: Kind, v: int)
    requires IsIntegral(k)
  {
    if Signed(k) then -(Modulus(k) / 2) <= v < Modulus(k) / 2 else 0 <= v < Modulus(k)
  }

  /** Two's-complement truncation to the width of the kind, as the C
      conversions do. */
  function Wrap(k: Kind, v: int): (r: int)
    requires IsIntegral(k)
    ensures InRange(k, r)
    ensures (r - v) % Modulus(k) == 0
  {
    var m := Modulus(k);
    var low := v % m;
    if Signed(k) && low >= m / 2 then low - m else low
  }

  lemma WrapInRange(k: Kind, v: int)
    requires IsIntegral(k) && InRange(k, v)
    ensures Wrap(k, v) == v
  {
    var m := Modulus(k);
    if v < 0 {
      assert v % m == v + m;
    } else {
      assert v % m == v;
    }
  }

  /** The marshalers of the floating-point and string kinds: their text
      forms are not part of this model, so they are given as functions. */
  datatype Codec = Codec(text: (Kind, Cell) -> string, parse: (Kind, string, Cell) -> Cell)

  predicate ByCodec(k: Kind)
  {
    k in {Float16, Float32, Angle, Percentage, String}
  }

  /** Kinds that reach the generic marshaler with a NULL format, which
      asserts "Need to handle this type via specialization". */
  predicate Unsupported(k: Kind)
  {
    !IsIntegral(k) && !ByCodec(k) && k != Enum
  }

  const Unspecialized := "Need to handle this type via specialization"

  /** `toString` for every kind but enum: booleans print `true`/`false`,
      integers their decimal value after reading the stored bits at the
      kind's width. */
  function ValueText(k: Kind, c: Cell, codec: Codec): (r: Result<string>)
    requires k != Enum
    ensures r.Fatal? <==> Unsupported(k)
    ensures k == Bool ==> r == Ok(if Wrap(UInt8, IntOf(c)) != 0 then "true" else "false")
    ensures IsIntegral(k) && k != Bool ==> r == Ok(DecimalText(Wrap(k, IntOf(c))))
  {
    if k == Bool then Ok(if Wrap(UInt8, IntOf(c)) != 0 then "true" else "false")
    else if IsIntegral(k) then Ok(DecimalText(Wrap(k, IntOf(c))))
    else if ByCodec(k) then Ok(codec.text(k, c))
    else Fatal(Unspecialized)
  }

  /** `fromString` for every kind but enum. A boolean is true exactly when its
      text starts with `true` (compared case-sensitively). The 8-bit kinds read
      into a full-width local first and store it truncated; when the text holds
      no number that local is never written and `garbage` stands for its
      contents. The wider integer kinds leave the stored value alone when the
      text holds no number. */
  function ParseValue(k: Kind, text: string, current: Cell, garbage: int, codec: Codec): (r: Result<Cell>)
    requires k != Enum
    ensures r.Fatal? <==> Unsupported(k)
    ensures IsIntegral(k) && r.Ok? ==>
              (r.value.Int? && InRange(k, r.value.v)) || (k !in {Bool, Int8, UInt8} && r.value == current)
  {
    if k == Bool then Ok(Int(if EqualWithin(text, "true", 4) then 1 else 0))
    else if k in {Int8, UInt8} then
      var parsed := ParseDecimal(text);
      Ok(Int(Wrap(k, if parsed.Some? then parsed.value else garbage)))
    else if IsIntegral(k) then
      var parsed := ParseDecimal(text);
      if parsed.Some? then Ok(Int(Wrap(k, parsed.value))) else Ok(current)
    else if ByCodec(k) then Ok(codec.parse(k, text, current))
    else Fatal(Unspecialized)
  }

  /** Every value an integral member can hold survives being written as text
      and read back, whatever was stored before. */
  lemma {:induction false} IntegralRoundTrip(k: Kind, v: int, current: Cell, garbage: int, codec: Codec)
    requires IsIntegral(k) && InRange(k, v) && (k == Bool ==> v in {0, 1})
    ensures ParseValue(k, ValueText(k, Int(v), codec).value, current, garbage, codec) == Ok(Int(v))
  {
    WrapInRange(k, v);
    if k == Bool {
      WrapInRange(UInt8, v);
      if v == 0 {
        assert Prefix("false", 4) == "fals";
      }
    } else {
      DecimalRoundTrip(v);
    }
  }

  /** Boolean parsing looks at the first four characters only, and compares
      them case-sensitively. */
  lemma BoolParse(text: string, current: Cell, garbage: int, codec: Codec)
    ensures ParseValue(Bool, text, current, garbage, codec) == Ok(Int(1)) <==> |text| >= 4 && text[..4] == "true"
    ensures ParseValue(Bool, text, current, garbage, codec) != Ok(Int(1)) ==>
              ParseValue(Bool, text, current, garbage, codec) == Ok(Int(0))
  {
    EqualWithinIgnoresTail(text, "true", 4);
  }

  /** Text without a number leaves a 16-, 32- or 64-bit member unchanged and
      stores the truncated uninitialised local into an 8-bit member. */
  lemma ParseFailure(k: Kind, text: string, current: Cell, garbage: int, codec: Codec)
    requires IsIntegral(k) && k != Bool && ParseDecimal(text).None?
    ensures k in {Int8, UInt8} ==> ParseValue(k, text, current, garbage, codec) == Ok(Int(Wrap(k, garbage)))
    ensures k !in {Int8, UInt8} ==> ParseValue(k, text, current, garbage, codec) == Ok(current)
  {
  }
}
