/**
  Component versions: three bytes packed into one unsigned 32-bit number, and their decimal form. Shifts
  and masks of unsigned numbers are written as arithmetic; BitsAreArithmetic says that they are.
*/
module Version {
  type Byte = n: int | 0 <= n < 0x100
  type UInt32 = n: int | 0 <= n < 0x1_0000_0000

  function Pack(major: Byte, minor: Byte, patch: Byte): UInt32 {
    major * 0x1_0000 + minor * 0x100 + patch
  }

  function Major(version: UInt32): Byte { (version / 0x1_0000) % 0x100 }

  function Minor(version: UInt32): Byte { (version / 0x100) % 0x100 }

  function Patch(version: UInt32): Byte { version % 0x100 }

  function WithoutPatch(version: UInt32): UInt32 { version % 0x100_0000 - version % 0x100 }

  function ToDecimal(version: UInt32): nat {
    Major(version) * 10000 + Minor(version) * 100 + Patch(version)
  }

  /** The versions that packing produces: the top byte is zero. */
  predicate IsVersion(v: UInt32) { v < 0x100_0000 }

  /** The macros' bit operations compute the arithmetic above. */
  lemma BitsAreArithmetic(major: bv32, minor: bv32, patch: bv32, v: bv32)
    requires major <= 0xff && minor <= 0xff && patch <= 0xff
    ensures (major << 16) | (minor << 8) | patch == major * 0x1_0000 + minor * 0x100 + patch
    ensures (v >> 16) & 0xff == (v / 0x1_0000) % 0x100
    ensures (v >> 8) & 0xff == (v / 0x100) % 0x100
    ensures v & 0xff == v % 0x100
    ensures v & ((0xff << 16) | (0xff << 8)) == v % 0x100_0000 - v % 0x100
  {
  }

  /** Packing and extraction undo each other. */
  lemma PackExtract(major: Byte, minor: Byte, patch: Byte)
    ensures var v := Pack(major, minor, patch);
            IsVersion(v) && Major(v) == major && Minor(v) == minor && Patch(v) == patch
  {
    var v := Pack(major, minor, patch);
    assert v / 0x100 == major * 0x100 + minor && v / 0x1_0000 == major;
  }

  /** All 32-bit numbers: repacking drops the top byte and nothing else. */
  lemma ExtractPack(v: UInt32)
    ensures Pack(Major(v), Minor(v), Patch(v)) == v % 0x100_0000
    ensures Pack(Major(v), Minor(v), Patch(v)) == v <==> IsVersion(v)
  {
    var h := v / 0x100;
    var g := h / 0x100;
    Quotients(v, g, 0x100 * (h % 0x100) + v % 0x100);
    assert g == 0x100 * (g / 0x100) + g % 0x100;
    Remainders(v, g / 0x100, 0x1_0000 * (g % 0x100) + 0x100 * (h % 0x100) + v % 0x100);
  }

  lemma Quotients(v: nat, q: nat, r: nat)
    requires v == 0x1_0000 * q + r && r < 0x1_0000
    ensures v / 0x1_0000 == q
  {
  }

  lemma Remainders(v: nat, q: nat, r: nat)
    requires v == 0x100_0000 * q + r && r < 0x100_0000
    ensures v % 0x100_0000 == r
  {
  }

  predicate Before(v: UInt32, w: UInt32) {
    Major(v) < Major(w) || (Major(v) == Major(w) &&
      (Minor(v) < Minor(w) || (Minor(v) == Minor(w) && Patch(v) < Patch(w))))
  }

  /** Packed versions compare as (major, minor, patch) does. */
  lemma PackedOrder(v: UInt32, w: UInt32)
    requires IsVersion(v) && IsVersion(w)
    ensures v < w <==> Before(v, w)
  {
    ExtractPack(v);
    ExtractPack(w);
    hide Major, Minor, Patch;
  }

  lemma WithoutPatchParts(v: UInt32)
    ensures WithoutPatch(v) == Pack(Major(v), Minor(v), 0)
    ensures WithoutPatch(WithoutPatch(v)) == WithoutPatch(v)
  {
    ExtractPack(v);
    PackExtract(Major(v), Minor(v), 0);
    ExtractPack(WithoutPatch(v));
  }

  /** Dropping the patch is the same for two numbers exactly when major and minor are. */
  lemma WithoutPatchSame(v: UInt32, w: UInt32)
    ensures WithoutPatch(v) == WithoutPatch(w) <==> Major(v) == Major(w) && Minor(v) == Minor(w)
  {
    WithoutPatchParts(v);
    WithoutPatchParts(w);
    PackExtract(Major(v), Minor(v), 0);
    PackExtract(Major(w), Minor(w), 0);
    hide Major, Minor, WithoutPatch, Pack;
  }

  /** Dropping the patch keeps the order of versions. */
  lemma WithoutPatchMonotone(v: UInt32, w: UInt32)
    requires IsVersion(v) && IsVersion(w)
    ensures v <= w ==> WithoutPatch(v) <= WithoutPatch(w)
  {
    assert WithoutPatch(v) == 0x100 * (v / 0x100) && WithoutPatch(w) == 0x100 * (w / 0x100);
  }

  // ----- the decimal form

  /** The decimal form has two digits for the patch, two for the minor and the rest for the major version;
      they can be read off it when minor and patch have no more than two digits. */
  lemma DecimalDigits(major: Byte, minor: Byte, patch: Byte)
    ensures var d := ToDecimal(Pack(major, minor, patch));
            && d == 10000 * major + 100 * minor + patch
            && (minor <= 99 && patch <= 99 ==> d / 10000 == major && d / 100 % 100 == minor && d % 100 == patch)
  {
    PackExtract(major, minor, patch);
    hide Major, Minor, Patch;
    if minor <= 99 && patch <= 99 {
      TwoDigits(100 * major + minor, patch);
      TwoDigits(major, minor);
      assert (10000 * major + 100 * minor + patch) / 10000 == major;
    }
  }

  lemma TwoDigits(high: nat, low: nat)
    requires low <= 99
    ensures (100 * high + low) / 100 == high && (100 * high + low) % 100 == low
  {
  }

  /** Versions up to the given major, minor and patch, each separately. */
  predicate InBox(v: UInt32, major: Byte, minor: Byte, patch: Byte) {
    IsVersion(v) && Major(v) <= major && Minor(v) <= minor && Patch(v) <= patch
  }

  ghost predicate DecimalOrders(major: Byte, minor: Byte, patch: Byte) {
    forall v, w | InBox(v, major, minor, patch) && InBox(w, major, minor, patch) ::
      ToDecimal(v) < ToDecimal(w) <==> v < w
  }

  /** No field can carry into the next one. */
  predicate NoCarry(major: Byte, minor: Byte, patch: Byte) {
    && (minor == 0 || patch <= 99)
    && (major == 0 || minor * 100 + patch <= 9999)
  }

  /** On a box of versions the decimal form gives the packed order exactly when no field can carry into the
      next: for any major with minor and patch up to 99, but not, say, with minor 1 and patch 100. */
  lemma DecimalOrdersExactly(major: Byte, minor: Byte, patch: Byte)
    ensures DecimalOrders(major, minor, patch) <==> NoCarry(major, minor, patch)
  {
    if NoCarry(major, minor, patch) {
      forall v, w | InBox(v, major, minor, patch) && InBox(w, major, minor, patch)
        ensures ToDecimal(v) < ToDecimal(w) <==> v < w
      {
        DecimalOrdersPair(major, minor, patch, v, w);
      }
    } else {
      var v, w := DecimalFails(major, minor, patch);
    }
  }

  lemma DecimalOrdersPair(major: Byte, minor: Byte, patch: Byte, v: UInt32, w: UInt32)
    requires NoCarry(major, minor, patch)
    requires InBox(v, major, minor, patch) && InBox(w, major, minor, patch)
    ensures ToDecimal(v) < ToDecimal(w) <==> v < w
  {
    PackedOrder(v, w);
    hide Major, Minor, Patch;
  }

  lemma DecimalFails(major: Byte, minor: Byte, patch: Byte) returns (v: UInt32, w: UInt32)
    requires !NoCarry(major, minor, patch)
    ensures InBox(v, major, minor, patch) && InBox(w, major, minor, patch)
    ensures v < w && ToDecimal(v) >= ToDecimal(w)
  {
    hide Major, Minor, Patch;
    if minor != 0 && patch > 99 {
      v, w := Pack(0, 0, 100), Pack(0, 1, 0);
      PackExtract(0, 0, 100);
      PackExtract(0, 1, 0);
    } else {
      v, w := Pack(0, minor, patch), Pack(1, 0, 0);
      PackExtract(0, minor, patch);
      PackExtract(1, 0, 0);
    }
  }
}
