/** Machine integers as byte strings, and splitting a sequence at a separator. */
module Bytes {
  import opened Digits

  type byte = b: int | 0 <= b < 256
  type u64 = n: int | 0 <= n < U64_LIMIT

  const U64_LIMIT: int := 0x1_0000_0000_0000_0000
  const U32_LIMIT: int := 0x1_0000_0000

  /** `to_be_bytes` of an integer `w` bytes wide. */
  function ToBe(n: nat, w: nat): (s: seq<byte>)
    ensures |s| == w
  {
    Fixed(n, 256, w)
  }

  /** `from_be_bytes`. */
  function FromBe(s: seq<byte>): (n: nat) {
    Value(s, 256)
  }

  function Reverse<T>(s: seq<T>): (r: seq<T>)
    ensures |r| == |s| && forall i | 0 <= i < |s| :: r[i] == s[|s| - 1 - i]
  {
    seq(|s|, i requires 0 <= i < |s| => s[|s| - 1 - i])
  }

  /** `to_le_bytes` and `from_le_bytes`. */
  function ToLe(n: nat, w: nat): (s: seq<byte>)
    ensures |s| == w
  {
    Reverse(ToBe(n, w))
  }

  function FromLe(s: seq<byte>): (n: nat) {
    FromBe(Reverse(s))
  }

  lemma Widths()
    ensures Pow(256, 4) == U32_LIMIT
    ensures Pow(256, 8) == U64_LIMIT
  {
    assert Pow(256, 1) == 256;
    assert Pow(256, 2) == 0x1_0000;
    assert Pow(256, 3) == 0x100_0000;
    assert Pow(256, 5) == 0x100_0000_0000;
    assert Pow(256, 6) == 0x1_0000_0000_0000;
    assert Pow(256, 7) == 0x100_0000_0000_0000;
  }

  lemma BeRoundTrip(n: nat, w: nat)
    requires n < Pow(256, w)
    ensures FromBe(ToBe(n, w)) == n
  {
    ValueOfFixed(n, 256, w);
  }

  lemma BeOfBytes(s: seq<byte>)
    ensures FromBe(s) < Pow(256, |s|)
    ensures ToBe(FromBe(s), |s|) == s
  {
    ValueBound(s, 256);
    FixedOfValue(s, 256);
  }

  /** The most significant byte comes first, or last. */
  lemma ByteOrder(n: nat, b: byte, w: nat, s: seq<byte>)
    ensures ToBe(256 * n + b, w + 1) == ToBe(n, w) + [b]
    ensures ToLe(256 * n + b, w + 1) == [b] + ToLe(n, w)
    ensures FromBe(s + [b]) == 256 * FromBe(s) + b
    ensures FromLe([b] + s) == 256 * FromLe(s) + b
  {
    DivMod(n, b, 256);
    assert Fixed(256 * n + b, 256, w + 1) == Fixed(n, 256, w) + [b];
    assert Reverse(ToBe(n, w) + [b]) == [b] + Reverse(ToBe(n, w));
    assert (s + [b])[..|s|] == s;
    assert Reverse([b] + s) == Reverse(s) + [b];
    assert (Reverse(s) + [b])[..|s|] == Reverse(s);
  }

  lemma LeRoundTrip(n: nat, w: nat)
    requires n < Pow(256, w)
    ensures FromLe(ToLe(n, w)) == n
  {
    BeRoundTrip(n, w);
    assert Reverse(Reverse(ToBe(n, w))) == ToBe(n, w);
  }

  lemma LeOfBytes(s: seq<byte>)
    ensures FromLe(s) < Pow(256, |s|)
    ensures ToLe(FromLe(s), |s|) == s
  {
    BeOfBytes(Reverse(s));
    assert Reverse(Reverse(s)) == s;
  }

  /** The position of the first `c`, or the length when there is none. */
  function IndexOf<T(==)>(s: seq<T>, c: T): (i: nat)
    ensures i <= |s| && c !in s[..i]
    ensures i < |s| ==> s[i] == c
  {
    if s == [] || s[0] == c then 0
    else
      var i := 1 + IndexOf(s[1..], c);
      assert s[..i] == [s[0]] + s[1..][..i - 1];
      i
  }

  lemma SplitAt<T>(s: seq<T>, i: nat)
    requires i < |s|
    ensures s == s[..i] + [s[i]] + s[i + 1..]
  {}

  /** Text up to a separator that does not occur in it can be told apart from what follows. */
  lemma {:induction false} FirstField<T>(x: seq<T>, c: T, rest: seq<T>)
    requires c !in x
    ensures IndexOf(x + [c] + rest, c) == |x|
    ensures (x + [c] + rest)[..|x|] == x && (x + [c] + rest)[|x| + 1..] == rest
    decreases |x|
  {
    if x != [] {
      FirstField(x[1..], c, rest);
      assert (x + [c] + rest)[1..] == x[1..] + [c] + rest;
    }
  }
}
