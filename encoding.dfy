/**
 * Byte-level encodings the signing helpers rely on: the fixed-width
 * big-endian `uint256` encoding of the Solidity ABI (go-ethereum's
 * `abi.U256`), Go's `%d` formatting of a non-negative length, and ASCII text
 * as bytes.
 */
module Encoding {

  /** An 8-bit unsigned value, as Go's `byte`. */
  newtype byte = b: int | 0 <= b < 256

  /** Adds `k` to `b` with 8-bit wrap-around, as Go's `+=` on a `byte` does. */
  function AddWrapping(b: byte, k: byte): (r: byte)
    ensures b as int + k as int < 256 ==> r as int == b as int + k as int
    ensures b as int + k as int >= 256 ==> r as int == b as int + k as int - 256
  {
    ((b as int + k as int) % 256) as byte
  }

  /** 256 to the power `n`: the number of values `n` bytes can hold. */
  function Pow256(n: nat): (p: nat)
    ensures p > 0
  {
    if n == 0 then 1 else 256 * Pow256(n - 1)
  }

  /** 2^256, the modulus of the ABI's `uint256`. */
  const U256Modulus: nat := 0x1_0000_0000_0000_0000_0000_0000_0000_0000_0000_0000_0000_0000_0000_0000_0000_0000

  /** The `width` low-order bytes of `x`, most significant first. */
  function ToBigEndian(x: nat, width: nat): (r: seq<byte>)
    ensures |r| == width
  {
    if width == 0 then [] else ToBigEndian(x / 256, width - 1) + [(x % 256) as byte]
  }

  /** The unsigned integer whose big-endian bytes are `s`. */
  function FromBigEndian(s: seq<byte>): (x: nat)
    ensures x < Pow256(|s|)
  {
    if s == [] then 0
    else
      var high := FromBigEndian(s[..|s| - 1]);
      assert high * 256 <= (Pow256(|s| - 1) - 1) * 256;
      high * 256 + s[|s| - 1] as int
  }

  /** Decoding undoes encoding for every value the width can hold. */
  lemma {:induction false} FromToBigEndian(x: nat, width: nat)
    requires x < Pow256(width)
    ensures FromBigEndian(ToBigEndian(x, width)) == x
  {
    if width > 0 {
      var r := ToBigEndian(x, width);
      assert x / 256 < Pow256(width - 1);
      FromToBigEndian(x / 256, width - 1);
      assert r[..width - 1] == ToBigEndian(x / 256, width - 1);
    }
  }

  /** Encoding undoes decoding: every byte string is the encoding of its value. */
  lemma {:induction false} ToFromBigEndian(s: seq<byte>)
    ensures ToBigEndian(FromBigEndian(s), |s|) == s
  {
    if s != [] {
      var init, last := s[..|s| - 1], s[|s| - 1];
      var x := FromBigEndian(s);
      assert x == FromBigEndian(init) * 256 + last as int;
      assert x / 256 == FromBigEndian(init);
      assert x % 256 == last as int;
      ToFromBigEndian(init);
      assert s == init + [last];
    }
  }

  lemma {:induction false} Pow256Add(a: nat, b: nat)
    ensures Pow256(a + b) == Pow256(a) * Pow256(b)
  {
    if a > 0 {
      Pow256Add(a - 1, b);
    }
  }

  lemma Pow256Of32()
    ensures Pow256(32) == U256Modulus
  {
    assert Pow256(4) == 0x1_0000_0000;
    Pow256Add(4, 4);
    Pow256Add(8, 8);
    Pow256Add(16, 16);
  }

  /**
   * `abi.U256(nonce)`: the nonce reduced modulo 2^256 (two's complement for
   * a negative value), as exactly 32 big-endian bytes.
   */
  function U256(n: int): (r: seq<byte>)
    ensures |r| == 32
    ensures FromBigEndian(r) == n % U256Modulus
  {
    Pow256Of32();
    FromToBigEndian(n % U256Modulus, 32);
    ToBigEndian(n % U256Modulus, 32)
  }

  /** Zero encodes as all-zero bytes, whatever the width. */
  lemma {:induction false} ToBigEndianZero(width: nat)
    ensures ToBigEndian(0, width) == seq(width, _ => 0)
  {
    if width > 0 {
      ToBigEndianZero(width - 1);
    }
  }

  /** Two nonces have the same encoding exactly when they agree modulo 2^256. */
  lemma U256Injective(a: int, b: int)
    ensures U256(a) == U256(b) <==> a % U256Modulus == b % U256Modulus
  {
    if U256(a) == U256(b) {
      assert FromBigEndian(U256(a)) == FromBigEndian(U256(b));
    }
  }

  /** The ASCII digit for `d`. */
  function Digit(d: nat): (c: byte)
    requires d < 10
    ensures '0' as int <= c as int <= '9' as int
  {
    ('0' as int + d) as byte
  }

  predicate IsDigit(c: byte) {
    '0' as int <= c as int <= '9' as int
  }

  /** Go's `%d` for a non-negative integer: its decimal digits, no sign, no padding. */
  function Decimal(n: nat): (r: seq<byte>)
    ensures |r| >= 1
    ensures forall i :: 0 <= i < |r| ==> IsDigit(r[i])
    ensures |r| == 1 <==> n < 10
    ensures |r| == 1 || r[0] != Digit(0)
  {
    if n < 10 then [Digit(n)] else Decimal(n / 10) + [Digit(n % 10)]
  }

  /** The value of a string of ASCII decimal digits. */
  function ParseDecimal(s: seq<byte>): nat
    requires forall i :: 0 <= i < |s| ==> IsDigit(s[i])
  {
    if s == [] then 0
    else
      assert IsDigit(s[|s| - 1]);
      ParseDecimal(s[..|s| - 1]) * 10 + (s[|s| - 1] as int - '0' as int)
  }

  /** Reading the digits back gives the number that was formatted. */
  lemma {:induction false} ParseDecimalOfDecimal(n: nat)
    ensures ParseDecimal(Decimal(n)) == n
  {
    if n >= 10 {
      var r := Decimal(n);
      assert r[..|r| - 1] == Decimal(n / 10);
      ParseDecimalOfDecimal(n / 10);
    }
  }

  /** The bytes of a 7-bit ASCII string. */
  function Ascii(s: string): (r: seq<byte>)
    requires forall i :: 0 <= i < |s| ==> s[i] as int < 128
    ensures |r| == |s|
    ensures forall i :: 0 <= i < |s| ==> r[i] as int == s[i] as int
  {
    seq(|s|, i requires 0 <= i < |s| => s[i] as int as byte)
  }
}
