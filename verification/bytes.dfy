/** Bytes and the pieces of Python's `struct` module the server uses:
    little-endian unsigned integers (`B`, `H`, `I` under `<`), the
    fixed-width `Ns` string format, and Python slice semantics. */
module Bytes {

  newtype byte = x: int | 0 <= x < 256

  /** 256^n: how many values an n-byte unsigned field can hold. */
  function Pow256(n: nat): (r: nat)
    ensures r >= 1
    ensures n >= 1 ==> r >= 256
  {
    if n == 0 then 1 else 256 * Pow256(n - 1)
  }

  const U8Limit: nat := 0x100
  const U16Limit: nat := 0x1_0000
  const U32Limit: nat := 0x1_0000_0000

  lemma LimitsArePowers()
    ensures Pow256(1) == U8Limit && Pow256(2) == U16Limit && Pow256(4) == U32Limit
  {
    assert Pow256(2) == 256 * Pow256(1);
    assert Pow256(3) == 256 * Pow256(2);
    assert Pow256(4) == 256 * Pow256(3);
  }

  lemma DivStepBound(n: nat, width: nat)
    requires width >= 1 && n < Pow256(width)
    ensures n / 256 < Pow256(width - 1)
  {
    assert Pow256(width) == 256 * Pow256(width - 1);
  }

  /** `n` packed little-endian in exactly `width` bytes, least significant
      byte first. */
  function ToLE(n: nat, width: nat): (r: seq<byte>)
    requires n < Pow256(width)
    ensures |r| == width
    ensures width >= 1 ==> r[0] as int == n % 256
  {
    if width == 0 then []
    else
      DivStepBound(n, width);
      [(n % 256) as byte] + ToLE(n / 256, width - 1)
  }

  /** The unsigned value of a little-endian byte string. */
  function FromLE(s: seq<byte>): (n: nat)
    ensures n < Pow256(|s|)
  {
    if |s| == 0 then 0
    else
      var rest := FromLE(s[1..]);
      assert Pow256(|s|) == 256 * Pow256(|s| - 1);
      assert s[0] as nat + 256 * rest <= 255 + 256 * (Pow256(|s| - 1) - 1);
      s[0] as nat + 256 * rest
  }

  /** Unpacking a packed integer gives it back. */
  lemma {:induction false} FromLEToLE(n: nat, width: nat)
    requires n < Pow256(width)
    ensures FromLE(ToLE(n, width)) == n
  {
    if width > 0 {
      DivStepBound(n, width);
      FromLEToLE(n / 256, width - 1);
      var s := ToLE(n, width);
      assert s[1..] == ToLE(n / 256, width - 1);
    }
  }

  /** Packing an unpacked byte string gives it back: the encoding is a bijection
      between `width`-byte strings and the integers below 256^width. */
  lemma {:induction false} ToLEFromLE(s: seq<byte>)
    ensures ToLE(FromLE(s), |s|) == s
  {
    if |s| > 0 {
      ToLEFromLE(s[1..]);
      var n := FromLE(s);
      assert n % 256 == s[0] as int;
      assert n / 256 == FromLE(s[1..]);
    }
  }

  /** `n` zero bytes. */
  function Zeros(n: nat): (r: seq<byte>)
    ensures |r| == n
    ensures forall i :: 0 <= i < n ==> r[i] == 0
  {
    seq(n, _ => 0)
  }

  /** The `Ns` format of `struct.pack`: the string truncated, or padded with
      NUL bytes, to exactly `n` bytes. */
  function FitTo(s: seq<byte>, n: nat): (r: seq<byte>)
    ensures |r| == n
    ensures forall i :: 0 <= i < n ==> r[i] == (if i < |s| then s[i] else 0)
    ensures |s| == n ==> r == s
  {
    if |s| >= n then s[..n] else s + Zeros(n - |s|)
  }

  function Min(a: nat, b: nat): nat { if a <= b then a else b }

  /** Python's `s[i:j]` for non-negative bounds: both ends are clamped to the
      length, and an end before the start gives the empty string. */
  function PySlice(s: seq<byte>, i: nat, j: nat): (r: seq<byte>)
    ensures j <= i ==> r == []
    ensures i <= j <= |s| ==> r == s[i..j]
    ensures |r| == (if Min(j, |s|) <= Min(i, |s|) then 0 else Min(j, |s|) - Min(i, |s|))
    ensures Min(i, |s|) < Min(j, |s|) ==> r == s[Min(i, |s|)..Min(j, |s|)]
  {
    var lo := Min(i, |s|);
    var hi := Min(j, |s|);
    if hi <= lo then [] else s[lo..hi]
  }
}
