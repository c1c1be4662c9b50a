/** Octets, big-endian unsigned integers and the slicing helpers the wire
    format is built from. */
module Bytes {

  type byte = b: int | 0 <= b < 256
  type Bytes = seq<byte>

  type u16 = n: int | 0 <= n < 0x1_0000
  type i16 = n: int | -0x8000 <= n < 0x8000
  type u32 = n: int | 0 <= n < 0x1_0000_0000
  type u64 = n: int | 0 <= n < 0x1_0000_0000_0000_0000

  /** 256 to the power `n`: the number of values `n` octets can hold. */
  function Pow256(n: nat): (r: nat)
    ensures r >= 1
  {
    if n == 0 then 1 else 256 * Pow256(n - 1)
  }

  lemma Pow256Widths()
    ensures Pow256(2) == 0x1_0000
    ensures Pow256(4) == 0x1_0000_0000
    ensures Pow256(8) == 0x1_0000_0000_0000_0000
  {
    assert Pow256(1) == 256;
    assert Pow256(2) == 0x1_0000;
    assert Pow256(3) == 0x100_0000;
    assert Pow256(4) == 0x1_0000_0000;
    assert Pow256(5) == 0x100_0000_0000;
    assert Pow256(6) == 0x1_0000_0000_0000;
    assert Pow256(7) == 0x100_0000_0000_0000;
  }

  /** `n` zero octets. */
  function Zeros(n: nat): (r: Bytes)
    ensures |r| == n
    ensures forall i :: 0 <= i < n ==> r[i] == 0
  {
    seq(n, _ => 0)
  }

  /** The `width` octets of `n`, most significant first. */
  function ToBigEndian(n: nat, width: nat): (r: Bytes)
    requires n < Pow256(width)
    ensures |r| == width
    decreases width
  {
    if width == 0 then []
    else ToBigEndian(n / 256, width - 1) + [n % 256]
  }

  /** The unsigned number whose big-endian octets are `s`. */
  function FromBigEndian(s: Bytes): (r: nat)
    ensures r < Pow256(|s|)
  {
    if |s| == 0 then 0
    else
      var high := FromBigEndian(s[..|s| - 1]);
      assert high * 256 <= (Pow256(|s| - 1) - 1) * 256;
      high * 256 + s[|s| - 1]
  }

  lemma {:induction false} FromToBigEndian(n: nat, width: nat)
    requires n < Pow256(width)
    ensures FromBigEndian(ToBigEndian(n, width)) == n
    decreases width
  {
    if width > 0 {
      var s := ToBigEndian(n, width);
      assert s[..width - 1] == ToBigEndian(n / 256, width - 1);
      FromToBigEndian(n / 256, width - 1);
    }
  }

  lemma {:induction false} ToFromBigEndian(s: Bytes)
    ensures ToBigEndian(FromBigEndian(s), |s|) == s
  {
    if |s| > 0 {
      var high := FromBigEndian(s[..|s| - 1]);
      var n := high * 256 + s[|s| - 1];
      assert n / 256 == high && n % 256 == s[|s| - 1];
      ToFromBigEndian(s[..|s| - 1]);
      assert s == s[..|s| - 1] + [s[|s| - 1]];
    }
  }

  /** Two's complement octets of a signed 16-bit value (Python `struct` code `h`). */
  function I16ToBigEndian(v: i16): (r: Bytes)
    ensures |r| == 2
  {
    Pow256Widths();
    ToBigEndian(if v < 0 then v + 0x1_0000 else v, 2)
  }

  /** The signed 16-bit value whose two's complement octets are `s`. */
  function I16FromBigEndian(s: Bytes): (r: i16)
    requires |s| == 2
  {
    var u := FromBigEndian(s);
    Pow256Widths();
    if u >= 0x8000 then u - 0x1_0000 else u
  }

  lemma I16RoundTrip(v: i16)
    ensures I16FromBigEndian(I16ToBigEndian(v)) == v
    ensures v < 0 <==> I16ToBigEndian(v)[0] >= 0x80
  {
    var u := if v < 0 then v + 0x1_0000 else v;
    Pow256Widths();
    FromToBigEndian(u, 2);
    var s := I16ToBigEndian(v);
    assert s[0] == u / 256;
  }

  /** Python's `s[:n]`: the first `n` octets of `s`, or all of `s` when it is shorter. */
  function Truncate(s: Bytes, n: nat): (r: Bytes)
    ensures |r| <= n && |r| <= |s|
    ensures |r| == n || r == s
    ensures r == s[..|r|]
  {
    if |s| <= n then s else s[..n]
  }

  /** A `struct` code `Ns` field: `s` zero-padded or truncated to exactly `n` octets. */
  function Fit(s: Bytes, n: nat): (r: Bytes)
    ensures |r| == n
    ensures forall i :: 0 <= i < n ==> r[i] == (if i < |s| then s[i] else 0)
  {
    if |s| >= n then s[..n] else s + Zeros(n - |s|)
  }

  /** The two halves of a concatenation, recovered by slicing. */
  lemma PrefixOfConcat(a: Bytes, b: Bytes)
    ensures (a + b)[..|a|] == a
    ensures (a + b)[|a|..] == b
  {
  }

  /** Slices of a suffix are slices of the whole. */
  lemma SuffixSlices(s: Bytes, k: nat, j: nat)
    requires k + j <= |s|
    ensures s[k..][..j] == s[k..k + j]
    ensures s[k..][j..] == s[k + j..]
  {
  }

  lemma ConcatAssocThree(a: Bytes, b: Bytes, c: Bytes)
    ensures a + b + c == a + (b + c)
  {
  }

  lemma ConcatAssoc(a: Bytes, b: Bytes, c: Bytes, d: Bytes)
    ensures a + (b + c + d) == a + b + c + d
  {
  }

  lemma ConcatAssocTail(a: Bytes, b: Bytes, c: Bytes, d: Bytes, e: Bytes)
    ensures a + (b + c + d) + e == a + b + c + d + e
  {
  }

  lemma ConcatAssocFive(a: Bytes, b: Bytes, c: Bytes, d: Bytes, e: Bytes)
    ensures a + b + c + d + e == a + (b + c + d + e)
  {
  }

  lemma ConcatRegroup(a: Bytes, b: Bytes, c: Bytes, d: Bytes)
    ensures a + (b + c) + d == a + b + c + d
  {
  }

  lemma FitExact(s: Bytes)
    ensures Fit(s, |s|) == s
  {
  }
}
