/** Fixed-width big-endian numbers, as encoding/binary and big.Int's FillBytes and SetBytes use them. */
module Bytes {
  import opened Arithmetic

  const UINT32 := 0x1_0000_0000
  const UINT64 := 0x1_0000_0000_0000_0000

  type Byte = b: nat | b < 256

  /** 256^n. */
  function Capacity(n: nat): (r: nat)
    ensures r > 0
  {
    if n == 0 then 1 else 256 * Capacity(n - 1)
  }

  /** The low n bytes of x, most significant first. */
  function Encode(x: nat, n: nat): (s: seq<Byte>)
    ensures |s| == n
    decreases n
  {
    if n == 0 then [] else Encode(x / 256, n - 1) + [x % 256]
  }

  function Decode(s: seq<Byte>): nat {
    if s == [] then 0 else Decode(s[..|s| - 1]) * 256 + s[|s| - 1]
  }

  /** Byte i, most significant first, in plain arithmetic. */
  lemma {:induction false} ByteIsDigit(x: nat, n: nat, i: nat)
    requires i < n
    ensures Encode(x, n)[i] == x / Capacity(n - 1 - i) % 256
    decreases n
  {
    if i == n - 1 {
    } else {
      ByteIsDigit(x / 256, n - 1, i);
      DivideTwice(x, 256, Capacity(n - 2 - i));
    }
  }

  /** A number below 256 takes the last byte. */
  lemma {:induction false} EncodeSmall(x: nat, n: nat)
    requires x < 256 && n > 0
    ensures Encode(x, n) == seq(n - 1, _ => 0) + [x]
  {
    EncodeZero(n - 1);
  }

  lemma {:induction false} EncodeZero(n: nat)
    ensures Encode(0, n) == seq(n, _ => 0)
  {
    if n == 0 {
    } else {
      EncodeZero(n - 1);
    }
  }

  lemma {:induction false} DecodeEncode(x: nat, n: nat)
    ensures Decode(Encode(x, n)) == x % Capacity(n)
    decreases n
  {
    if n == 0 {
    } else {
      DecodeEncode(x / 256, n - 1);
      assert Encode(x, n)[..n - 1] == Encode(x / 256, n - 1);
      LastDigit(x, Capacity(n - 1));
    }
  }

  lemma LastDigit(x: nat, c: nat)
    requires c > 0
    ensures (x / 256) % c * 256 + x % 256 == x % (256 * c)
  {
    var q, r := x / 256, x % 256;
    var a, b := q / c, q % c;
    assert q == a * c + b;
    assert x == a * (256 * c) + (256 * b + r);
    Division(x, 256 * c, a, 256 * b + r);
  }

  /** Numbers below the capacity survive. */
  lemma RoundTrip(x: nat, n: nat)
    requires x < Capacity(n)
    ensures Decode(Encode(x, n)) == x
  {
    DecodeEncode(x, n);
  }

  lemma HeaderCapacities()
    ensures Capacity(2) == 0x1_0000
    ensures Capacity(4) == 0x1_0000_0000
    ensures Capacity(8) == 0x1_0000_0000_0000_0000
    ensures Capacity(32) == 0x1_0000_0000_0000_0000_0000_0000_0000_0000_0000_0000_0000_0000_0000_0000_0000_0000
  {
    assert Capacity(1) == 256;
    assert Capacity(2) == 0x1_0000;
    assert Capacity(3) == 0x100_0000;
    assert Capacity(4) == 0x1_0000_0000;
    assert Capacity(5) == 0x100_0000_0000;
    assert Capacity(6) == 0x1_0000_0000_0000;
    assert Capacity(7) == 0x100_0000_0000_0000;
    CapacityStep(8);
    CapacityStep(16);
    CapacityStep(24);
  }

  lemma CapacityStep(n: nat)
    ensures Capacity(n + 8) == 0x1_0000_0000_0000_0000 * Capacity(n)
  {
    assert Capacity(n + 2) == 0x1_0000 * Capacity(n);
    assert Capacity(n + 4) == 0x1_0000 * Capacity(n + 2);
    assert Capacity(n + 6) == 0x1_0000 * Capacity(n + 4);
  }
}
