/**
 * Machine integers of the decoder and the big-endian reading of a byte
 * string, used as the reference definition for every integer field of an
 * ITCH 5.0 message (all ITCH integers are big-endian, unsigned).
 */
module Bytes {

  type u8 = x: int | 0 <= x < 0x100
  type u16 = x: int | 0 <= x < 0x1_0000
  type u64 = x: int | 0 <= x < 0x1_0000_0000_0000_0000

  /** 256 to the power `n`: one more than the largest value `n` bytes hold. */
  function Pow256(n: nat): (r: nat)
    ensures r >= 1
  {
    if n == 0 then 1 else 256 * Pow256(n - 1)
  }

  /** The value of `s` read as a big-endian unsigned integer:
      the sum of s[k] * 256^(|s|-1-k). */
  function BigEndian(s: seq<u8>): nat
  {
    if |s| == 0 then 0 else BigEndian(s[..|s| - 1]) * 256 + s[|s| - 1]
  }

  /** The `width` bytes that write `n` big-endian, most significant first. */
  function ToBigEndian(n: nat, width: nat): (s: seq<u8>)
    requires n < Pow256(width)
    ensures |s| == width
  {
    if width == 0 then [] else ToBigEndian(n / 256, width - 1) + [n % 256]
  }

  /** The big-endian reading of two bytes, unfolded. */
  lemma BigEndianTwo(s: seq<u8>)
    requires |s| == 2
    ensures BigEndian(s) == (s[0] as int) * 256 + s[1]
  {
    assert BigEndian(s[..1]) == BigEndian(s[..1][..0]) * 256 + s[0];
    assert s[..1][..0] == [];
  }

  /** The big-endian reading of six bytes, unfolded: each byte weighted by
      256 to the power of the number of bytes after it. */
  lemma BigEndianSix(s: seq<u8>)
    requires |s| == 6
    ensures BigEndian(s) ==
      (s[0] as int) * 0x100_0000_0000 + (s[1] as int) * 0x1_0000_0000 +
      (s[2] as int) * 0x100_0000 + (s[3] as int) * 0x1_0000 +
      (s[4] as int) * 0x100 + s[5]
  {
    assert s[..5][..4] == s[..4];
    assert s[..4][..3] == s[..3];
    assert s[..3][..2] == s[..2];
    BigEndianTwo(s[..2]);
  }

  /** A big-endian reading of `|s|` bytes is below 256^|s|. */
  lemma {:induction false} BigEndianBound(s: seq<u8>)
    ensures BigEndian(s) < Pow256(|s|)
  {
    if |s| > 0 {
      BigEndianBound(s[..|s| - 1]);
    }
  }

  /** Writing then reading gives the number back. */
  lemma {:induction false} BigEndianOfToBigEndian(n: nat, width: nat)
    requires n < Pow256(width)
    ensures BigEndian(ToBigEndian(n, width)) == n
  {
    if width > 0 {
      var s := ToBigEndian(n, width);
      assert s[..width - 1] == ToBigEndian(n / 256, width - 1);
      BigEndianOfToBigEndian(n / 256, width - 1);
    }
  }

  /** Reading then writing gives the bytes back, so the reading is injective
      on byte strings of one width. */
  lemma {:induction false} ToBigEndianOfBigEndian(s: seq<u8>)
    ensures BigEndian(s) < Pow256(|s|)
    ensures ToBigEndian(BigEndian(s), |s|) == s
  {
    BigEndianBound(s);
    if |s| > 0 {
      var init := s[..|s| - 1];
      ToBigEndianOfBigEndian(init);
      assert BigEndian(s) / 256 == BigEndian(init);
      assert BigEndian(s) % 256 == s[|s| - 1];
      assert s == init + [s[|s| - 1]];
    }
  }

  /** Two byte strings of one width with the same big-endian value are equal. */
  lemma BigEndianInjective(a: seq<u8>, b: seq<u8>)
    requires |a| == |b| && BigEndian(a) == BigEndian(b)
    ensures a == b
  {
    ToBigEndianOfBigEndian(a);
    ToBigEndianOfBigEndian(b);
  }
}
