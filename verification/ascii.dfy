/**
 * The character sum behind the table's hash (`convertASCII`).
 *
 * Java strings are sequences of UTF-16 code units and `charAt` yields one code
 * unit, so a character outside the Basic Multilingual Plane contributes the
 * values of both halves of its surrogate pair. Sums are unbounded here; the
 * 32-bit wrap-around of Java `int` is not modelled.
 */
module Ascii {

  /** The code point a one- or two-unit UTF-16 sequence stands for. */
  function DecodeUtf16(units: seq<int>): int
  {
    if |units| == 2 then 0x1_0000 + (units[0] - 0xD800) * 0x400 + (units[1] - 0xDC00)
    else if |units| == 1 then units[0]
    else -1
  }

  /**
   * The UTF-16 code units of `c`, as a Java string holds it: one unit inside
   * the Basic Multilingual Plane, otherwise a high and a low surrogate.
   */
  function Utf16(c: char): (units: seq<int>)
    ensures |units| == (if c as int < 0x1_0000 then 1 else 2)
    ensures forall k :: 0 <= k < |units| ==> 0 <= units[k] < 0x1_0000
    ensures |units| == 2 ==> 0xD800 <= units[0] < 0xDC00 <= units[1] < 0xE000
    ensures DecodeUtf16(units) == c as int
  {
    if c as int < 0x1_0000 then [c as int]
    else
      var v := c as int - 0x1_0000;
      [0xD800 + v / 0x400, 0xDC00 + v % 0x400]
  }

  /** Sum of the code unit values that encode `c`: what `charAt` contributes for it. */
  function CodeUnitSum(c: char): nat
  {
    var units := Utf16(c);
    if |units| == 1 then units[0] else units[0] + units[1]
  }

  /** Reference definition: the sum of the code units of `s`, accumulated left to right. */
  function CharSum(s: string): nat
  {
    if |s| == 0 then 0 else CharSum(s[..|s| - 1]) + CodeUnitSum(s[|s| - 1])
  }

  /** `convertASCII`: the accumulating loop of the source. */
  method ConvertAscii(s: string) returns (result: nat)
    ensures result == CharSum(s)
  {
    result := 0;
    var i := 0;
    while i < |s|
      invariant 0 <= i <= |s|
      invariant result == CharSum(s[..i])
    {
      assert s[..i + 1][..i] == s[..i];
      result := result + CodeUnitSum(s[i]);
      i := i + 1;
    }
    assert s[..|s|] == s;
  }

  /** The sum of a concatenation is the sum of the parts. */
  lemma {:induction false} CharSumAppend(a: string, b: string)
    ensures CharSum(a + b) == CharSum(a) + CharSum(b)
    decreases |b|
  {
    if |b| == 0 {
      assert a + b == a;
    } else {
      var b' := b[..|b| - 1];
      assert (a + b)[..|a + b| - 1] == a + b';
      CharSumAppend(a, b');
    }
  }

  /** Strings that are rearrangements of each other have the same sum. */
  lemma {:induction false} PermutationSameSum(a: string, b: string)
    requires multiset(a) == multiset(b)
    ensures CharSum(a) == CharSum(b)
    decreases |a|
  {
    if |a| == 0 {
      assert |b| == |multiset(b)| == 0;
    } else {
      var a' := a[..|a| - 1];
      var c := a[|a| - 1];
      assert a == a' + [c];
      assert multiset(a) == multiset(a') + multiset{c};
      assert c in multiset(b);
      var k :| 0 <= k < |b| && b[k] == c;
      var b' := b[..k] + b[k + 1..];
      assert b == b[..k] + [c] + b[k + 1..];
      assert multiset(b) == multiset(b[..k]) + multiset{c} + multiset(b[k + 1..]);
      assert multiset(b') == multiset(b[..k]) + multiset(b[k + 1..]);
      assert multiset(a') == multiset(a) - multiset{c};
      assert multiset(b') == multiset(b) - multiset{c};
      PermutationSameSum(a', b');
      CharSumAppend(b[..k] + [c], b[k + 1..]);
      CharSumAppend(b[..k], [c]);
      CharSumAppend(b[..k], b[k + 1..]);
      CharSumAppend(a', [c]);
      assert CharSum([c]) == CodeUnitSum(c) by {
        assert [c][..0] == [];
      }
    }
  }
}
