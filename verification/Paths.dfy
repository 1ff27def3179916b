/** Keys as bit paths: server/internal/smt/path.go and the width test of tree.go. */
module Paths {
  import opened Arithmetic

  type Bit = b: nat | b < 2

  /** Number of bits of n, as `big.Int.BitLen`. */
  function BitLen(n: nat): nat {
    if n == 0 then 0 else 1 + BitLen(n / 2)
  }

  /** Bit i of n, least significant first, as `big.Int.Bit`. */
  function BitAt(n: nat, i: nat): Bit
    decreases i
  {
    if i == 0 then n % 2 else BitAt(n / 2, i - 1)
  }

  /** The key is not wider than the tree is deep. */
  predicate Fits(key: nat, depth: nat) {
    BitLen(key) <= depth
  }

  /** A tree of depth n takes exactly the keys below 2^n. */
  lemma {:induction false} FitsExactly(key: nat, depth: nat)
    ensures Fits(key, depth) <==> key < Pow2(depth)
    decreases depth
  {
    if depth == 0 || key == 0 {
    } else {
      FitsExactly(key / 2, depth - 1);
    }
  }

  ghost function PathOf(key: nat, depth: nat): seq<Bit> {
    seq(depth, i requires 0 <= i => BitAt(key, i))
  }

  /** The key's path starts with p. */
  ghost predicate OnPath(p: seq<Bit>, key: nat) {
    forall i :: 0 <= i < |p| ==> p[i] == BitAt(key, i)
  }

  /** Bit i in plain arithmetic. */
  lemma {:induction false} BitIsDigit(n: nat, i: nat)
    ensures BitAt(n, i) == n / Pow2(i) % 2
    decreases i
  {
    if i == 0 {
    } else {
      BitIsDigit(n / 2, i - 1);
      DivideTwice(n, 2, Pow2(i - 1));
    }
  }

  /** The number whose bits these are, least significant first. */
  ghost function Number(bits: seq<Bit>): nat {
    if bits == [] then 0 else bits[0] + 2 * Number(bits[1..])
  }

  /** A key that fits is read back from its path. */
  lemma {:induction false} PathRead(key: nat, depth: nat)
    requires Fits(key, depth)
    ensures Number(PathOf(key, depth)) == key
    decreases depth
  {
    if depth == 0 {
    } else {
      PathRead(key / 2, depth - 1);
      assert PathOf(key, depth)[1..] == PathOf(key / 2, depth - 1);
    }
  }

  /** Element i is bit i of the key, in plain arithmetic, and a key that fits is read back from them. */
  ghost predicate Spells(path: seq<Bit>, key: nat, depth: nat) {
    && |path| == depth
    && (forall i :: 0 <= i < depth ==> path[i] == key / Pow2(i) % 2)
    && (Fits(key, depth) ==> Number(path) == key)
  }

  lemma PathSpells(key: nat, depth: nat)
    ensures Spells(PathOf(key, depth), key, depth)
  {
    hide BitAt, Fits;
    if Fits(key, depth) {
      PathRead(key, depth);
    }
    forall i | 0 <= i < depth
      ensures PathOf(key, depth)[i] == key / Pow2(i) % 2
    {
      BitIsDigit(key, i);
    }
  }

  /** The array the Go code allocates and fills is returned as the sequence of its elements. */
  method KeyToPath(key: nat, depth: nat) returns (path: seq<Bit>)
    ensures path == PathOf(key, depth)
    ensures Spells(path, key, depth)
  {
    hide BitAt, Spells;
    var buffer := new Bit[depth](_ => 0);
    for i := 0 to depth
      invariant buffer[..i] == PathOf(key, depth)[..i]
    {
      buffer[i] := BitAt(key, i);
    }
    path := buffer[..];
    PathSpells(key, depth);
  }

  /** Keys that fit are determined by their paths: the reason why the zero-sibling loop of Add stops. */
  lemma {:induction false} PathInjective(a: nat, b: nat, depth: nat)
    requires Fits(a, depth) && Fits(b, depth)
    requires PathOf(a, depth) == PathOf(b, depth)
    ensures a == b
    decreases depth
  {
    if depth == 0 {
    } else {
      assert PathOf(a, depth)[0] == PathOf(b, depth)[0];
      forall i | 0 <= i < depth - 1
        ensures BitAt(a / 2, i) == BitAt(b / 2, i)
      {
        assert PathOf(a, depth)[i + 1] == PathOf(b, depth)[i + 1];
      }
      assert PathOf(a / 2, depth - 1) == PathOf(b / 2, depth - 1);
      PathInjective(a / 2, b / 2, depth - 1);
    }
  }

  /** n is exactly the length of the longest common prefix of a and b. */
  ghost predicate IsCommonPrefixLength(a: seq<Bit>, b: seq<Bit>, n: nat) {
    && n <= |a| && n <= |b|
    && a[..n] == b[..n]
    && (n < |a| && n < |b| ==> a[n] != b[n])
  }

  method GetFirstCommonBits(a: seq<Bit>, b: seq<Bit>) returns (r: nat)
    ensures IsCommonPrefixLength(a, b, r)
    ensures r == CommonBits(a, b)
  {
    var n := |a|;
    if |b| < n {
      n := |b|;
    }
    for i := 0 to n
      invariant a[..i] == b[..i]
    {
      if a[i] != b[i] {
        CommonBitsUnique(a, b, i);
        return i;
      }
    }
    CommonBitsUnique(a, b, n);
    return n;
  }

  ghost function CommonBits(a: seq<Bit>, b: seq<Bit>): (n: nat)
    ensures IsCommonPrefixLength(a, b, n)
  {
    if a == [] || b == [] || a[0] != b[0] then 0
    else
      var n := 1 + CommonBits(a[1..], b[1..]);
      assert a[..n] == [a[0]] + a[1..][..n - 1];
      assert b[..n] == [b[0]] + b[1..][..n - 1];
      n
  }

  /** The first bit where two keys part. */
  lemma PartingBit(a: nat, b: nat, depth: nat) returns (p: nat)
    requires Fits(a, depth) && Fits(b, depth) && a != b
    ensures p < depth && BitAt(a, p) != BitAt(b, p)
    ensures forall i :: 0 <= i < p ==> BitAt(a, i) == BitAt(b, i)
  {
    hide BitAt, BitLen;
    var x, y := PathOf(a, depth), PathOf(b, depth);
    p := CommonBits(x, y);
    if p == depth {
      assert x == x[..p] == y[..p] == y;
      PathInjective(a, b, depth);
    }
    forall i | 0 <= i < p
      ensures BitAt(a, i) == BitAt(b, i)
    {
      assert x[..p][i] == y[..p][i];
    }
  }

  lemma CommonBitsUnique(a: seq<Bit>, b: seq<Bit>, n: nat)
    requires IsCommonPrefixLength(a, b, n)
    ensures n == CommonBits(a, b)
  {}
}
