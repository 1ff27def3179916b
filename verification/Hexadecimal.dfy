/** Numbers as hex strings: `big.Int` printing and reading, and the 0x form of
    server/internal/snapshot/snapshot.go. */
module Hexadecimal {
  import opened Arithmetic
  import opened Wrappers

  function DigitChar(d: nat): char
    requires d < 16
  {
    "0123456789abcdef"[d]
  }

  /** As `big.Int.Text(16)`. */
  function Hex(n: nat): (s: string)
    ensures s != []
  {
    if n < 16 then [DigitChar(n)] else Hex(n / 16) + [DigitChar(n % 16)]
  }

  function Sixteens(k: nat): (r: nat)
    ensures r > 0
  {
    if k == 0 then 1 else 16 * Sixteens(k - 1)
  }

  /** A number prints with at most k digits exactly when it is below 16^k. */
  lemma {:induction false} HexLength(n: nat, k: nat)
    requires k > 0
    ensures |Hex(n)| <= k <==> n < Sixteens(k)
    decreases k
  {
    if n < 16 {
      assert Sixteens(k) >= 16;
    } else if k == 1 {
      assert Hex(n / 16) != [];
    } else {
      HexLength(n / 16, k - 1);
    }
  }

  function DigitValue(c: char): Option<nat> {
    if '0' <= c <= '9' then Some(c as int - '0' as int)
    else if 'a' <= c <= 'f' then Some(c as int - 'a' as int + 10)
    else if 'A' <= c <= 'F' then Some(c as int - 'A' as int + 10)
    else None
  }

  /** One or more hex digits of either case. */
  function Digits(s: string): Option<nat> {
    if s == [] then None
    else
      var last := DigitValue(s[|s| - 1]);
      if |s| == 1 then last
      else
        var front := Digits(s[..|s| - 1]);
        if front.None? || last.None? then None else Some(front.value * 16 + last.value)
  }

  /** As `big.Int.SetString(s, 16)`: digits after an optional sign. */
  function SetString(s: string): Option<int> {
    if s != [] && (s[0] == '-' || s[0] == '+') then
      var n := Digits(s[1..]);
      if n.None? then None else Some(if s[0] == '-' then 0 - n.value as int else n.value)
    else
      var n := Digits(s);
      if n.None? then None else Some(n.value)
  }

  function BigToHex(n: nat): string {
    if n == 0 then "0x0" else "0x" + Hex(n)
  }

  function HexToBig(s: string): Option<int> {
    SetString(if |s| >= 2 && s[..2] == "0x" then s[2..] else s)
  }

  lemma {:induction false} HexDigits(n: nat)
    ensures Digits(Hex(n)) == Some(n)
    ensures DigitValue(Hex(n)[0]).Some?
  {
    if n < 16 {
      DigitRead(n);
    } else {
      hide Digits, DigitValue;
      HexDigits(n / 16);
      NextDigit(Hex(n / 16), n % 16);
    }
  }

  lemma DigitRead(d: nat)
    requires d < 16
    ensures DigitValue(DigitChar(d)) == Some(d)
  {}

  /** The string keys of the node map stand for the hashes one to one. */
  lemma NodeKeyInjective(a: nat, b: nat)
    requires Hex(a) == Hex(b)
    ensures a == b
  {
    HexDigits(a);
    HexDigits(b);
  }

  lemma HexRoundTrip(n: nat)
    ensures HexToBig(BigToHex(n)) == Some(n)
  {
    HexDigits(n);
    var s := BigToHex(n);
    assert s[..2] == "0x";
    if n == 0 {
      assert s[2..] == "0";
    } else {
      assert s[2..] == Hex(n);
    }
  }

  /** Leading zeros do not matter when a printed number is read. */
  lemma {:induction false} PaddedHex(zeros: string, n: nat)
    requires forall i :: 0 <= i < |zeros| ==> zeros[i] == '0'
    ensures SetString(zeros + Hex(n)) == Some(n)
  {
    PaddedDigits(zeros, n);
    HexDigits(n);
    var s := zeros + Hex(n);
    assert s[0] == if zeros == [] then Hex(n)[0] else '0';
  }

  lemma {:induction false} ZeroDigits(zeros: string)
    requires zeros != [] && forall i :: 0 <= i < |zeros| ==> zeros[i] == '0'
    ensures Digits(zeros) == Some(0)
    decreases |zeros|
  {
    if |zeros| == 1 {
    } else {
      ZeroDigits(zeros[..|zeros| - 1]);
    }
  }

  lemma NextDigit(front: string, d: nat)
    requires d < 16
    ensures Digits(front + [DigitChar(d)])
            == if front == [] then Some(d)
               else if Digits(front).None? then None else Some(Digits(front).value * 16 + d)
  {
    DigitRead(d);
    hide DigitValue;
    assert (front + [DigitChar(d)])[..|front|] == front;
  }

  lemma {:induction false} PaddedDigits(zeros: string, n: nat)
    requires forall i :: 0 <= i < |zeros| ==> zeros[i] == '0'
    ensures Digits(zeros + Hex(n)) == Some(n)
    decreases n
  {
    hide Digits, DigitValue;
    if n < 16 {
      NextDigit(zeros, n);
      if zeros != [] {
        ZeroDigits(zeros);
      }
    } else {
      PaddedDigits(zeros, n / 16);
      NextDigit(zeros + Hex(n / 16), n % 16);
      assert zeros + Hex(n) == (zeros + Hex(n / 16)) + [DigitChar(n % 16)];
    }
  }

  // ------------------------------------------------------ printing and reading spelled out

  lemma LowerCase(d: nat)
    requires d < 16
    ensures DigitChar(d) == if d < 10 then '0' + d as char else 'a' + (d - 10) as char
    ensures DigitChar(d) != 'x'
  {}

  lemma LastDigit(n: nat)
    ensures Hex(n) == (if n < 16 then [] else Hex(n / 16)) + [DigitChar(n % 16)]
  {}

  /** Digit i from the right, counted from 0. */
  function DigitAt(n: nat, i: nat): nat {
    n / Sixteens(i) % 16
  }

  lemma DigitAtStep(n: nat, i: nat)
    ensures DigitAt(n, i) < 16
    ensures DigitAt(n, i) == if i == 0 then n % 16 else DigitAt(n / 16, i - 1)
  {
    if i > 0 {
      DivideTwice(n, 16, Sixteens(i - 1));
    }
  }

  lemma {:induction false} HexDigitAt(n: nat, i: nat)
    requires i < |Hex(n)|
    ensures DigitAt(n, i) < 16 && Hex(n)[|Hex(n)| - 1 - i] == DigitChar(DigitAt(n, i))
    decreases i
  {
    hide Hex, DigitAt, DigitChar;
    LastDigit(n);
    DigitAtStep(n, i);
    if i == 0 {
    } else {
      HexDigitAt(n / 16, i - 1);
    }
  }

  predicate IsHexChar(c: char) {
    c in "0123456789abcdefABCDEF"
  }

  lemma CharRead(c: char)
    ensures DigitValue(c).Some? <==> IsHexChar(c)
  {
    if DigitValue(c).Some? {
      var v := DigitValue(c).value;
      assert c == "0123456789abcdefABCDEF"[if 'A' <= c <= 'F' then v + 6 else v];
    }
  }

  /** The values of the digits of either case. */
  lemma CharValue(d: nat)
    requires d < 16
    ensures DigitValue("0123456789abcdef"[d]) == Some(d) && DigitValue("0123456789ABCDEF"[d]) == Some(d)
  {}

  lemma {:induction false} DigitsRead(s: string)
    ensures Digits(s).Some? <==> s != [] && forall i :: 0 <= i < |s| ==> IsHexChar(s[i])
    decreases |s|
  {
    hide DigitValue, IsHexChar;
    if s == [] {
    } else {
      CharRead(s[|s| - 1]);
      DigitsRead(s[..|s| - 1]);
    }
  }

  /** A text is read exactly when it is one or more hex digits of either case after an optional sign. */
  lemma TextRead(s: string)
    ensures
      var body := if s != [] && (s[0] == '-' || s[0] == '+') then s[1..] else s;
      SetString(s).Some? <==> body != [] && forall i :: 0 <= i < |body| ==> IsHexChar(body[i])
  {
    hide Digits, IsHexChar;
    DigitsRead(if s != [] && (s[0] == '-' || s[0] == '+') then s[1..] else s);
  }

  lemma SignRead(n: nat)
    ensures SetString("-" + Hex(n)) == Some(0 - n as int) && SetString("+" + Hex(n)) == Some(n)
  {
    hide Digits, Hex, DigitValue;
    HexDigits(n);
    assert ("-" + Hex(n))[1..] == Hex(n) == ("+" + Hex(n))[1..];
  }

  /** The 0x is always printed, and zero has a digit. */
  lemma PrefixPrinted(n: nat)
    ensures BigToHex(n) == "0x" + Hex(n)
    ensures Hex(0) == "0"
  {}

  /** The 0x may be missing when a number is read. */
  lemma BareRead(n: nat)
    ensures HexToBig(Hex(n)) == Some(n)
  {
    hide Hex, SetString, DigitChar, DigitValue, DigitAt;
    PaddedHex("", n);
    assert "" + Hex(n) == Hex(n);
    SecondDigit(n);
  }

  lemma SecondDigit(n: nat)
    ensures |Hex(n)| >= 2 ==> Hex(n)[..2] != "0x"
  {
    hide Hex, DigitChar, DigitAt;
    var length := |Hex(n)|;
    if length >= 2 {
      HexDigitAt(n, length - 2);
      LowerCase(DigitAt(n, length - 2));
      assert Hex(n)[..2][1] == Hex(n)[1];
    }
  }
}
