/** Bytes, fixed-width unsigned integers and their big-endian encodings. */
module Octets {

  type byte = x: int | 0 <= x < 0x100
  type u16 = x: int | 0 <= x < 0x1_0000
  type u32 = x: int | 0 <= x < 0x1_0000_0000
  type u64 = x: int | 0 <= x < 0x1_0000_0000_0000_0000

  const U64_MAX: u64 := 0xFFFF_FFFF_FFFF_FFFF

  type Bytes = seq<byte>

  /** The number of values that fit in `width` bytes. */
  function Limit(width: nat): (n: nat)
    ensures n > 0
  {
    if width == 0 then 1 else 256 * Limit(width - 1)
  }

  /** `to_be_bytes` for an integer of `width` bytes. */
  function ToBE(n: nat, width: nat): (s: Bytes)
    ensures |s| == width
  {
    if width == 0 then [] else ToBE(n / 256, width - 1) + [n % 256]
  }

  /** `from_be_bytes`. */
  function FromBE(s: Bytes): nat {
    if s == [] then 0 else FromBE(s[..|s| - 1]) * 256 + s[|s| - 1]
  }

  lemma {:induction false} FromToBE(n: nat, width: nat)
    requires n < Limit(width)
    ensures FromBE(ToBE(n, width)) == n
  {
    if width != 0 {
      var s := ToBE(n, width);
      assert s[..|s| - 1] == ToBE(n / 256, width - 1);
      FromToBE(n / 256, width - 1);
    }
  }

  lemma {:induction false} ToFromBE(s: Bytes)
    ensures FromBE(s) < Limit(|s|)
    ensures ToBE(FromBE(s), |s|) == s
  {
    if s != [] {
      ToFromBE(s[..|s| - 1]);
      assert s == s[..|s| - 1] + [s[|s| - 1]];
    }
  }

  lemma TwoBytesFit(s: Bytes)
    requires |s| == 2
    ensures FromBE(s) < 0x1_0000
  {
    ToFromBE(s);
    Limits();
  }

  lemma FourBytesFit(s: Bytes)
    requires |s| == 4
    ensures FromBE(s) < 0x1_0000_0000
  {
    ToFromBE(s);
    Limits();
  }

  lemma EightBytesFit(s: Bytes)
    requires |s| == 8
    ensures FromBE(s) < 0x1_0000_0000_0000_0000
  {
    ToFromBE(s);
    Limits();
  }

  /** The widths the wire formats use. */
  lemma Limits()
    ensures Limit(1) == 0x100 && Limit(2) == 0x1_0000 && Limit(4) == 0x1_0000_0000
    ensures Limit(8) == 0x1_0000_0000_0000_0000
  {
    assert Limit(3) == 256 * Limit(2);
    assert Limit(5) == 256 * Limit(4);
    assert Limit(6) == 256 * Limit(5);
    assert Limit(7) == 256 * Limit(6);
  }
}
