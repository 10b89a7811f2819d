/** Fixed-width unsigned integers and their little- and big-endian byte layouts,
    as `encoding/binary` reads them. */
module Bytes {

  type byte = b: int | 0 <= b < 0x100
  type u8 = byte
  type u16 = n: int | 0 <= n < 0x1_0000
  type u32 = n: int | 0 <= n < 0x1_0000_0000
  type u64 = n: int | 0 <= n < 0x1_0000_0000_0000_0000

  /** 256 to the power `w`: the number of values a `w`-byte word can hold. */
  function Pow256(w: nat): (p: nat)
    ensures p >= 1
  {
    if w == 0 then 1 else 256 * Pow256(w - 1)
  }

  /** Little-endian value of a byte string: the first byte is the least significant. */
  function LE(s: seq<byte>): (n: nat)
    ensures n < Pow256(|s|)
  {
    if s == [] then 0 else s[0] + 256 * LE(s[1..])
  }

  /** Big-endian value of a byte string: the last byte is the least significant. */
  function BE(s: seq<byte>): (n: nat)
    ensures n < Pow256(|s|)
  {
    if s == [] then 0 else 256 * BE(s[..|s| - 1]) + s[|s| - 1]
  }

  /** The `w`-byte little-endian layout of `n`. */
  function ToLE(n: nat, w: nat): (s: seq<byte>)
    ensures |s| == w
  {
    if w == 0 then [] else [n % 256] + ToLE(n / 256, w - 1)
  }

  /** The `w`-byte big-endian layout of `n`. */
  function ToBE(n: nat, w: nat): (s: seq<byte>)
    ensures |s| == w
  {
    if w == 0 then [] else ToBE(n / 256, w - 1) + [n % 256]
  }

  lemma {:induction false} LEOfToLE(n: nat, w: nat)
    requires n < Pow256(w)
    ensures LE(ToLE(n, w)) == n
  {
    if w > 0 {
      var s := ToLE(n, w);
      assert s[1..] == ToLE(n / 256, w - 1);
      LEOfToLE(n / 256, w - 1);
    }
  }

  lemma {:induction false} ToLEOfLE(s: seq<byte>)
    ensures ToLE(LE(s), |s|) == s
  {
    if s != [] {
      var n := LE(s);
      assert n % 256 == s[0] && n / 256 == LE(s[1..]);
      ToLEOfLE(s[1..]);
    }
  }

  lemma {:induction false} BEOfToBE(n: nat, w: nat)
    requires n < Pow256(w)
    ensures BE(ToBE(n, w)) == n
  {
    if w > 0 {
      var s := ToBE(n, w);
      assert s[..w - 1] == ToBE(n / 256, w - 1);
      BEOfToBE(n / 256, w - 1);
    }
  }

  lemma {:induction false} ToBEOfBE(s: seq<byte>)
    ensures ToBE(BE(s), |s|) == s
  {
    if s != [] {
      var n := BE(s);
      var init := s[..|s| - 1];
      assert n % 256 == s[|s| - 1] && n / 256 == BE(init);
      ToBEOfBE(init);
      assert init + [s[|s| - 1]] == s;
    }
  }

  /** Typed readers: decoding a word of width `w` stays within the width's
      range, and the word's layout is the bytes it was read from. */
  function U16LE(s: seq<byte>): (n: u16)
    requires |s| == 2
    ensures ToLE(n, 2) == s
  {
    ToLEOfLE(s);
    LE(s)
  }

  function U32LE(s: seq<byte>): (n: u32)
    requires |s| == 4
    ensures ToLE(n, 4) == s
  {
    ToLEOfLE(s);
    LE(s)
  }

  function U64LE(s: seq<byte>): (n: u64)
    requires |s| == 8
    ensures ToLE(n, 8) == s
  {
    ToLEOfLE(s);
    LE(s)
  }

  function U32BE(s: seq<byte>): (n: u32)
    requires |s| == 4
    ensures ToBE(n, 4) == s
  {
    ToBEOfBE(s);
    BE(s)
  }

  function U64BE(s: seq<byte>): (n: u64)
    requires |s| == 8
    ensures ToBE(n, 8) == s
  {
    ToBEOfBE(s);
    BE(s)
  }

  lemma PowersOf256()
    ensures Pow256(2) == 0x1_0000 && Pow256(4) == 0x1_0000_0000
    ensures Pow256(8) == 0x1_0000_0000_0000_0000
  {
  }

  /** Each typed reader reads back the layout of a value of its width. */
  lemma ReadsBack(a: u16, b: u32, c: u64)
    ensures U16LE(ToLE(a, 2)) == a && U32LE(ToLE(b, 4)) == b && U64LE(ToLE(c, 8)) == c
    ensures U32BE(ToBE(b, 4)) == b && U64BE(ToBE(c, 8)) == c
  {
    PowersOf256();
    LEOfToLE(a, 2);
    LEOfToLE(b, 4);
    LEOfToLE(c, 8);
    BEOfToBE(b, 4);
    BEOfToBE(c, 8);
  }

  /** A slice of a slice is a slice of the whole. */
  lemma SliceOfSlice<T>(s: seq<T>, i: nat, j: nat, k: nat, l: nat)
    requires i <= j <= |s| && k <= l <= j - i
    ensures s[i..j][k..l] == s[i + k..i + l]
  {
    var a, b := s[i..j][k..l], s[i + k..i + l];
    assert |a| == |b|;
    forall n | 0 <= n < |a| ensures a[n] == b[n] {
      assert a[n] == s[i..j][k + n] == s[i + k + n];
    }
  }
}
