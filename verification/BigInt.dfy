/** Two's complement over byte arrays (lib/column/bigint.go). Arrays are reversed and complemented
    in place; big.Int is an unbounded integer. An image stands for the number it is congruent to,
    within the signed or unsigned range of its length. */
module BigInt {
  import opened Base

  // ---------------------------------------------------------------- specification

  function Pow256(n: nat): (p: int)
    ensures p > 0
  {
    if n == 0 then 1 else 256 * Pow256(n - 1)
  }

  /** Little-endian value. */
  function Little(s: Bytes): (v: int)
    ensures v >= 0
  {
    if s == [] then 0 else s[0] as int + 256 * Little(s[1..])
  }

  /** Big-endian value, as `SetBytes` reads it. */
  function Big(s: Bytes): (v: int)
    ensures v >= 0
  {
    if s == [] then 0 else 256 * Big(s[..|s| - 1]) + s[|s| - 1] as int
  }

  /** The number a little-endian two's complement image stands for. */
  function Signed(s: Bytes): int {
    if s != [] && s[|s| - 1] >= 128 then Little(s) - Pow256(|s|) else Little(s)
  }

  function Not(s: Bytes): Bytes {
    seq(|s|, k requires 0 <= k < |s| => 255 - s[k])
  }

  function Reversed(s: Bytes): Bytes {
    seq(|s|, k requires 0 <= k < |s| => s[|s| - 1 - k])
  }

  /** What `endianSwap` makes of `s`: the loop stops before the middle byte of an odd length,
      so that byte is never complemented. */
  function Swapped(s: Bytes, not: bool): Bytes {
    seq(|s|, k requires 0 <= k < |s| =>
      var b := s[|s| - 1 - k];
      if not && 2 * k + 1 != |s| then 255 - b else b)
  }

  // ---------------------------------------------------------------- lemmas

  lemma {:induction false} LittleBound(s: Bytes)
    ensures Little(s) < Pow256(|s|)
  {
    if s != [] { LittleBound(s[1..]); }
  }

  lemma {:induction false} LittleInjective(s: Bytes, t: Bytes)
    requires |s| == |t| && Little(s) == Little(t)
    ensures s == t
  {
    if s != [] {
      LittleInjective(s[1..], t[1..]);
      assert s == [s[0]] + s[1..] && t == [t[0]] + t[1..];
    }
  }

  /** The top byte decides whether the value is in the upper half. */
  lemma {:induction false} TopByte(s: Bytes)
    requires s != []
    ensures s[|s| - 1] >= 128 <==> 2 * Little(s) >= Pow256(|s|)
  {
    if |s| == 1 {
      assert s[1..] == [] && Pow256(1) == 256 * Pow256(0);
    } else {
      TopByte(s[1..]);
    }
  }

  lemma {:induction false} ReversedLittle(s: Bytes)
    ensures Little(Reversed(s)) == Big(s)
  {
    if s != [] {
      var n := |s| - 1;
      ReversedLittle(s[..n]);
      assert Reversed(s)[1..] == Reversed(s[..n]);
    }
  }

  lemma {:induction false} NotLittle(s: Bytes)
    ensures Little(Not(s)) == Pow256(|s|) - 1 - Little(s)
  {
    if s != [] {
      NotLittle(s[1..]);
      assert Not(s)[1..] == Not(s[1..]);
    }
  }

  lemma {:induction false} BigReversed(s: Bytes)
    ensures Big(Reversed(s)) == Little(s)
  {
    assert Reversed(Reversed(s)) == s;
    ReversedLittle(Reversed(s));
  }

  /** Complementing through the swap is right exactly when no middle byte is skipped. */
  lemma SwappedNot(s: Bytes)
    ensures Swapped(s, true) == Not(Reversed(s)) <==> |s| % 2 == 0
  {
    if |s| % 2 == 1 {
      var m := |s| / 2;
      assert Swapped(s, true)[m] == s[m] && Not(Reversed(s))[m] == 255 - s[m];
    }
  }

  lemma SignedRange(s: Bytes)
    ensures -Pow256(|s|) <= 2 * Signed(s) < Pow256(|s|)
  {
    LittleBound(s);
    if s != [] { TopByte(s); }
  }

  // ---------------------------------------------------------------- the code

  /** The `n` big-endian digits of `v`. */
  function Digits(n: nat, v: nat): (s: Bytes)
    ensures |s| == n
  {
    if n == 0 then [] else Digits(n - 1, v / 256) + [(v % 256) as byte]
  }

  lemma {:induction false} BigDigits(n: nat, v: nat)
    requires v < Pow256(n)
    ensures Big(Digits(n, v)) == v
  {
    if n > 0 {
      BigDigits(n - 1, v / 256);
      assert Digits(n, v)[..n - 1] == Digits(n - 1, v / 256);
    }
  }

  /** `big.Int.FillBytes`: big-endian, zero-extended; it needs the value to fit. */
  method FillBytes(a: array<byte>, v: nat)
    requires v < Pow256(a.Length)
    modifies a
    ensures Big(a[..]) == v
  {
    var i, rest := a.Length, v;
    while i > 0
      invariant 0 <= i <= a.Length
      invariant Digits(i, rest) + a[i..] == Digits(a.Length, v)
    {
      i := i - 1;
      a[i] := (rest % 256) as byte;
      assert Digits(i + 1, rest) + a[i + 1..] == Digits(i, rest / 256) + ([a[i]] + a[i + 1..]);
      assert [a[i]] + a[i + 1..] == a[i..];
      rest := rest / 256;
    }
    assert [] + a[0..] == a[..];
    BigDigits(a.Length, v);
  }

  method EndianSwap(src: array<byte>, not: bool)
    modifies src
    ensures src[..] == Swapped(old(src[..]), not)
  {
    var n, i := src.Length, 0;
    while i < n / 2
      invariant 0 <= i <= n / 2
      invariant forall k | 0 <= k < n :: src[k] == if i <= k < n - i then old(src[k]) else Swapped(old(src[..]), not)[k]
    {
      if not {
        src[i], src[n - i - 1] := 255 - src[n - i - 1], 255 - src[i];
      } else {
        src[i], src[n - i - 1] := src[n - i - 1], src[i];
      }
      i := i + 1;
    }
  }

  /** Little-endian two's complement of v, except that a negative v needs an even length. */
  method BigIntToRaw(dest: array<byte>, v: int)
    requires -Pow256(dest.Length) <= v < Pow256(dest.Length)
    modifies dest
    ensures v >= 0 ==> Little(dest[..]) == v
    ensures v < 0 ==> (Little(dest[..]) == Pow256(dest.Length) + v <==> dest.Length % 2 == 0)
  {
    if v < 0 {
      FillBytes(dest, -v - 1);
    } else {
      FillBytes(dest, v);
    }
    ghost var s := dest[..];
    EndianSwap(dest, v < 0);
    ReversedLittle(s);
    if v < 0 {
      NotLittle(Reversed(s));
      SwappedNot(s);
      if Little(dest[..]) == Little(Not(Reversed(s))) { LittleInjective(dest[..], Not(Reversed(s))); }
    } else {
      assert Swapped(s, false) == Reversed(s);
    }
  }

  method RawToBigInt(v: array<byte>, signed: bool) returns (r: int)
    modifies v
    ensures r == if signed then Signed(old(v[..])) else Little(old(v[..]))
  {
    ghost var s := v[..];
    EndianSwap(v, false);
    assert v[..] == Reversed(s);
    BigReversed(s);
    if signed && v.Length > 0 && v[0] >= 128 {
      Complement(v);
      ComplementBig(s);
      r := -Big(v[..]) - 1;
    } else {
      r := Big(v[..]);
    }
  }

  method Complement(v: array<byte>)
    modifies v
    ensures v[..] == Not(old(v[..]))
  {
    var i := 0;
    while i < v.Length
      invariant 0 <= i <= v.Length
      invariant forall k | 0 <= k < v.Length :: v[k] == if k < i then 255 - old(v[k]) else old(v[k])
    {
      v[i] := 255 - v[i];
      i := i + 1;
    }
  }

  lemma NotReversed(s: Bytes)
    ensures Not(Reversed(s)) == Reversed(Not(s))
  {
  }

  lemma ComplementBig(s: Bytes)
    ensures Big(Not(Reversed(s))) == Pow256(|s|) - 1 - Little(s)
  {
    NotReversed(s);
    BigReversed(Not(s));
    NotLittle(s);
  }

  /** Storing and reading back returns v exactly when v is within the range of the format and,
      if negative, the length is even. */
  method RoundTrip(n: nat, v: int, signed: bool) returns (r: int)
    requires -Pow256(n) <= v < Pow256(n)
    ensures signed ==> (r == v <==> -Pow256(n) <= 2 * v < Pow256(n) && (v >= 0 || n % 2 == 0))
    ensures !signed ==> (r == v <==> v >= 0)
  {
    var raw := new byte[n];
    BigIntToRaw(raw, v);
    ghost var s := raw[..];
    r := RawToBigInt(raw, signed);
    SignedRange(s);
    if signed && -Pow256(n) <= 2 * v < Pow256(n) {
      RightImage(s, v);
    }
  }

  /** Within the signed range an image stands for v exactly when its little-endian value is v modulo 256^n. */
  lemma RightImage(s: Bytes, v: int)
    requires -Pow256(|s|) <= 2 * v < Pow256(|s|)
    ensures Signed(s) == v <==> Little(s) == if v >= 0 then v else Pow256(|s|) + v
  {
    LittleBound(s);
    if s != [] { TopByte(s); }
  }
}
