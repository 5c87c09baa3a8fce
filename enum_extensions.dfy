/**
  Editor/Utils/EnumExtensions.cs: the "all bits" flag test `HasFlag`, which,
  unlike `FlagHelper.IsFlagSet`, requires every bit of the flag to be present
  and refuses operands of two different enum types.
 */
module EnumExtensions {
  import opened Wrappers
  import opened FlagHelper

  /** A boxed enum value: the name of its enum type and its bit pattern. */
  datatype EnumValue = EnumValue(enumType: string, bits: Bits)

  /** The `ArgumentException` raised for operands of different enum types. */
  datatype ArgumentError = EnumTypesDiffer(valueType: string, flagType: string)

  /** `HasFlag(value, flag)`: `(value & flag) == flag`, or an error when the enum types differ. */
  function HasFlag(value: EnumValue, flag: EnumValue): (r: Result<bool, ArgumentError>)
    ensures r.Failure? <==> value.enumType != flag.enumType
    ensures r.Failure? ==> r.error == EnumTypesDiffer(value.enumType, flag.enumType)
    ensures r.Success? ==> (r.value <==> flag.bits <= value.bits)
  {
    if value.enumType != flag.enumType then Failure(EnumTypesDiffer(value.enumType, flag.enumType))
    else Success(value.bits * flag.bits == flag.bits)
  }

  /** `HasFlag(v, 0)` always holds, whereas `IsFlagSet(v, 0)` never does. */
  lemma HasFlagZero(value: EnumValue)
    ensures HasFlag(value, EnumValue(value.enumType, {})) == Success(true)
    ensures !IsFlagSet(value.bits, {})
  {
  }

  /** `HasFlag` is reflexive and transitive. */
  lemma HasFlagPreorder(a: EnumValue, b: EnumValue, c: EnumValue)
    ensures HasFlag(a, a) == Success(true)
    ensures HasFlag(a, b) == Success(true) && HasFlag(b, c) == Success(true) ==> HasFlag(a, c) == Success(true)
  {
  }

  /** For a non-zero flag, "all bits set" implies "some bit set"; for a one-bit flag the two tests agree. */
  lemma HasFlagImpliesIsFlagSet(value: EnumValue, flag: EnumValue)
    requires value.enumType == flag.enumType
    ensures flag.bits != {} && HasFlag(value, flag) == Success(true) ==> IsFlagSet(value.bits, flag.bits)
    ensures |flag.bits| == 1 ==> (HasFlag(value, flag) == Success(true) <==> IsFlagSet(value.bits, flag.bits))
  {
    if |flag.bits| == 1 {
      var b :| b in flag.bits;
      assert |flag.bits - {b}| == 0;
      assert flag.bits == {b};
    }
  }
}
