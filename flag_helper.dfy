/**
  Bit-flag arithmetic of Editor/Utils/FlagHelper.cs.

  Every flags enum of the program is converted with `ToInt32` before it is
  tested, so what matters is the 32-bit pattern of the value.  A pattern is
  modelled exactly by the set of the positions (0 to 31) of its 1-bits:
  `&` is intersection, `|` is union, and `~` is the complement within the 32
  positions.
 */
module FlagHelper {

  /** The 32 bit positions of a C# `int`. */
  const Positions: set<int> := set i | 0 <= i < 32

  /** A 32-bit pattern, as the positions of its 1-bits. */
  type Bits = s: set<int> | s <= Positions

  /** The pattern `1 << i`. */
  function Bit(i: int): Bits
    requires 0 <= i < 32
  {
    {i}
  }

  /** The pattern with every bit set, the C# value -1. */
  function AllBits(): (b: Bits)
    ensures forall i :: 0 <= i < 32 ==> i in b
  {
    Positions
  }

  /** `~flags`: the complement within the 32 positions. */
  function Not(flags: Bits): (r: Bits)
    ensures forall i :: 0 <= i < 32 ==> (i in r <==> i !in flags)
  {
    Positions - flags
  }

  /** `IsFlagSet`: true when ANY bit of `flag` is also set in `value`. */
  predicate IsFlagSet(value: Bits, flag: Bits)
  {
    value * flag != {}
  }

  /** `SetFlags(value, flags, on)`: switches the bits of `flags` on or off and keeps every other bit. */
  function SetFlagsTo(value: Bits, flags: Bits, on: bool): (r: Bits)
    ensures on ==> flags <= r
    ensures !on ==> r * flags == {}
    ensures r * Not(flags) == value * Not(flags)
  {
    if on then value + flags else value * Not(flags)
  }

  /** `SetFlags(value, flags)`: the two-argument overload switches the bits on. */
  function SetFlags(value: Bits, flags: Bits): (r: Bits)
    ensures flags <= r
    ensures r * Not(flags) == value * Not(flags)
  {
    SetFlagsTo(value, flags, true)
  }

  /** `ClearFlags(value, flags)`: switches the bits of `flags` off. */
  function ClearFlags(value: Bits, flags: Bits): (r: Bits)
    ensures !IsFlagSet(r, flags)
    ensures r * Not(flags) == value * Not(flags)
  {
    SetFlagsTo(value, flags, false)
  }

  /** The bitwise OR of all the flags, the value `CombineFlags` computes. */
  function Combined(flags: seq<Bits>): Bits
  {
    if flags == [] then {} else Combined(flags[..|flags| - 1]) + flags[|flags| - 1]
  }

  /** `CombineFlags`: folds the sequence with `|=` into an accumulator that starts at 0. */
  method CombineFlags(flags: seq<Bits>) returns (r: Bits)
    ensures r == Combined(flags)
    ensures forall i :: 0 <= i < |flags| ==> flags[i] <= r
    ensures forall b :: b in r ==> exists i :: 0 <= i < |flags| && b in flags[i]
  {
    r := {};
    var k := 0;
    while k < |flags|
      invariant 0 <= k <= |flags|
      invariant r == Combined(flags[..k])
    {
      assert flags[..k + 1][..k] == flags[..k];
      r := r + flags[k];
      k := k + 1;
    }
    assert flags[..k] == flags;
    forall i | 0 <= i < |flags| ensures flags[i] <= r {
      CombinedIncludes(flags, i);
    }
    forall b | b in r ensures exists i :: 0 <= i < |flags| && b in flags[i] {
      var i := CombinedBitSource(flags, b);
    }
  }

  /** `AreNotSet(value, flags)`: none of the given flags overlaps `value`. */
  predicate AreNotSet(value: Bits, flags: seq<Bits>)
  {
    forall i :: 0 <= i < |flags| ==> !IsFlagSet(value, flags[i])
  }

  // ---------------------------------------------------------------------------
  // Properties

  /** A flag value of 0 is never "set", and one set bit of a multi-bit flag is enough. */
  lemma IsFlagSetAnyBit(value: Bits, flag: Bits)
    ensures !IsFlagSet(value, {})
    ensures IsFlagSet(value, flag) <==> exists i :: 0 <= i < 32 && Bit(i) <= flag && Bit(i) <= value
  {
    if IsFlagSet(value, flag) {
      var i :| i in value * flag;
      assert Bit(i) == {i};
      assert Bit(i) <= flag && Bit(i) <= value;
    }
    if exists i :: 0 <= i < 32 && Bit(i) <= flag && Bit(i) <= value {
      var i :| 0 <= i < 32 && Bit(i) <= flag && Bit(i) <= value;
      assert i in Bit(i);
      assert i in value * flag;
    }
  }

  /** Testing a one- or two-bit flag is testing its positions. */
  lemma IsFlagSetPositions(value: Bits, i: int, j: int)
    requires 0 <= i < 32 && 0 <= j < 32
    ensures IsFlagSet(value, Bit(i)) <==> i in value
    ensures IsFlagSet(value, Bit(i) + Bit(j)) <==> i in value || j in value
  {
    if i in value {
      assert i in value * Bit(i) && i in value * (Bit(i) + Bit(j));
    }
    if j in value {
      assert j in value * (Bit(i) + Bit(j));
    }
    if IsFlagSet(value, Bit(i) + Bit(j)) {
      var k :| k in value * (Bit(i) + Bit(j));
    }
  }

  /** `SetFlags` is idempotent, and the flags it sets are then reported set. */
  lemma SetFlagsIdempotent(value: Bits, flags: Bits)
    ensures SetFlags(SetFlags(value, flags), flags) == SetFlags(value, flags)
    ensures flags != {} ==> IsFlagSet(SetFlags(value, flags), flags)
  {
  }

  /** The two outcomes of `SetFlags(v, f, on)` are the C# expressions `v | f` and `v & ~f`. */
  lemma SetFlagsToBitwise(value: Bits, flags: Bits)
    ensures SetFlagsTo(value, flags, true) == value + flags
    ensures SetFlagsTo(value, flags, false) == value * Not(flags)
    ensures ClearFlags(SetFlags(value, flags), flags) == ClearFlags(value, flags)
  {
  }

  /** Every element of the sequence is contained in the combination. */
  lemma {:induction false} CombinedIncludes(flags: seq<Bits>, i: nat)
    requires i < |flags|
    ensures flags[i] <= Combined(flags)
  {
    if i < |flags| - 1 {
      CombinedIncludes(flags[..|flags| - 1], i);
    }
  }

  /** Every bit of the combination comes from some element. */
  lemma {:induction false} CombinedBitSource(flags: seq<Bits>, b: int) returns (i: nat)
    requires b in Combined(flags)
    ensures i < |flags| && b in flags[i]
  {
    var init := flags[..|flags| - 1];
    if b in flags[|flags| - 1] {
      i := |flags| - 1;
    } else {
      i := CombinedBitSource(init, b);
    }
  }

  /** `CombineFlags` of nothing is 0, and it depends neither on order nor on repetitions. */
  lemma CombinedOrderIndependent(s: seq<Bits>, t: seq<Bits>)
    requires forall x :: x in s <==> x in t
    ensures Combined([]) == {}
    ensures Combined(s) == Combined(t)
  {
    forall b | b in Combined(s) ensures b in Combined(t) {
      var i := CombinedBitSource(s, b);
      assert s[i] in t;
      var j :| 0 <= j < |t| && t[j] == s[i];
      CombinedIncludes(t, j);
    }
    forall b | b in Combined(t) ensures b in Combined(s) {
      var j := CombinedBitSource(t, b);
      assert t[j] in s;
      var i :| 0 <= i < |s| && s[i] == t[j];
      CombinedIncludes(s, i);
    }
  }

  /** `AreNotSet` holds exactly when the combination of the flags does not overlap the value. */
  lemma {:induction false} AreNotSetIffCombinedDisjoint(value: Bits, flags: seq<Bits>)
    ensures AreNotSet(value, flags) <==> value * Combined(flags) == {}
    ensures AreNotSet(value, [])
  {
    if flags != [] {
      var init := flags[..|flags| - 1];
      AreNotSetIffCombinedDisjoint(value, init);
      assert AreNotSet(value, flags) <==> AreNotSet(value, init) && !IsFlagSet(value, flags[|flags| - 1]);
    }
  }
}
