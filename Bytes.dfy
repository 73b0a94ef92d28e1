/**
 * Bytes of the log file and the big-endian integer encodings that the
 * storage engine uses for its record header (`to_be_bytes` and
 * `u32::from_be_bytes` in src/main.rs).
 */
module Bytes {

  /** One octet of the log file. */
  type Byte = b: int | 0 <= b < 0x100

  /** 2^32: one more than the largest `u32`. */
  const U32Bound: nat := 0x1_0000_0000
  /** 2^128: one more than the largest `u128`. */
  const U128Bound: nat := 0x1_0000_0000_0000_0000_0000_0000_0000_0000

  /** 256^n, the number of distinct values an n-byte field can hold. */
  function Pow256(n: nat): (p: nat)
    ensures p >= 1
  {
    if n == 0 then 1 else 256 * Pow256(n - 1)
  }

  lemma Pow256Widths()
    ensures Pow256(4) == U32Bound
    ensures Pow256(16) == U128Bound
  {
  }

  /** The unsigned number a big-endian byte sequence denotes (`from_be_bytes`). */
  function FromBE(s: seq<Byte>): (n: nat)
    ensures n < Pow256(|s|)
  {
    if s == [] then 0
    else
      var hi := FromBE(s[..|s| - 1]);
      assert hi * 256 <= (Pow256(|s| - 1) - 1) * 256;
      hi * 256 + s[|s| - 1]
  }

  /** The `width`-byte big-endian encoding of `n` (`to_be_bytes`). */
  function ToBE(n: nat, width: nat): (s: seq<Byte>)
    requires n < Pow256(width)
    ensures |s| == width
    ensures FromBE(s) == n
  {
    if width == 0 then []
    else
      var init := ToBE(n / 256, width - 1);
      assert (init + [n % 256])[..width - 1] == init;
      init + [n % 256]
  }

  /** Zero encodes as all-zero bytes at every width. */
  lemma {:induction false} ZeroBE(width: nat)
    ensures ToBE(0, width) == seq(width, i => 0)
  {
    if width > 0 {
      ZeroBE(width - 1);
    }
  }

  /** A four-byte big-endian field, spelled out. */
  lemma FromBE4(a: Byte, b: Byte, c: Byte, d: Byte)
    ensures FromBE([a, b, c, d]) == ((a * 256 + b) * 256 + c) * 256 + d
  {
    assert [a][..0] == [];
    assert FromBE([a]) == a;
    assert [a, b][..1] == [a];
    assert FromBE([a, b]) == a * 256 + b;
    assert [a, b, c][..2] == [a, b];
    assert FromBE([a, b, c]) == (a * 256 + b) * 256 + c;
    assert [a, b, c, d][..3] == [a, b, c];
  }

  /** Decoding is injective on a fixed width: re-encoding gives the bytes back. */
  lemma {:induction false} ToBEFromBE(s: seq<Byte>)
    ensures ToBE(FromBE(s), |s|) == s
  {
    if s != [] {
      var init, last := s[..|s| - 1], s[|s| - 1];
      ToBEFromBE(init);
      var n := FromBE(s);
      assert n / 256 == FromBE(init) && n % 256 == last;
      assert s == init + [last];
    }
  }
}
