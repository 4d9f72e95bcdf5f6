/** Octets, and the handful of characters the HTTP and JSON code treats specially. */
module Bytes {
  type byte = b: int | 0 <= b < 256

  const NUL: byte := 0
  const HT: byte := 9
  const LF: byte := 10
  const CR: byte := 13
  const SP: byte := 32
  const DEL: byte := 127

  datatype Option<+T> = None | Some(value: T)

  predicate IsDigit(c: byte) { '0' as int <= c <= '9' as int }

  predicate IsHexDigit(c: byte) {
    '0' as int <= c <= '9' as int || 'A' as int <= c <= 'F' as int || 'a' as int <= c <= 'f' as int
  }

  function HexDigit(c: byte): (v: nat)
    requires IsHexDigit(c)
    ensures v < 16
  {
    if c <= '9' as int then c - '0' as int
    else if c <= 'F' as int then 10 + c - 'A' as int
    else 10 + c - 'a' as int
  }

  const SIZE_MAX: nat := 0xFFFF_FFFF_FFFF_FFFF
  const INT_MAX: nat := 0x7FFF_FFFF

  function Pow(b: nat, e: nat): nat {
    if e == 0 then 1 else b * Pow(b, e - 1)
  }

  /** text stands in s at i. */
  ghost predicate At(s: seq<byte>, i: nat, text: seq<byte>) {
    i + |text| <= |s| && forall k :: 0 <= k < |text| ==> s[i + k] == text[k]
  }

  lemma AtSlice(s: seq<byte>, i: nat, text: seq<byte>)
    requires At(s, i, text)
    ensures s[i..i + |text|] == text
  {
  }

  lemma AtSplit(s: seq<byte>, i: nat, a: seq<byte>, b: seq<byte>)
    requires At(s, i, a + b)
    ensures At(s, i, a) && At(s, i + |a|, b)
  {
    forall k | 0 <= k < |a| ensures s[i + k] == a[k] { assert (a + b)[k] == a[k]; }
    forall k | 0 <= k < |b| ensures s[i + |a| + k] == b[k] { assert (a + b)[|a| + k] == b[k]; }
  }

  lemma AtSplitTwice(s: seq<byte>, i: nat, a: seq<byte>, b: seq<byte>, c: seq<byte>)
    requires At(s, i, a + (b + c))
    ensures At(s, i, a) && At(s, i + |a|, b) && At(s, i + |a| + |b|, c)
  {
    AtSplit(s, i, a, b + c);
    AtSplit(s, i + |a|, b, c);
  }

  lemma Regroup<T>(a: seq<T>, b: seq<T>, c: seq<T>)
    ensures a + (b + c) == (a + b) + c
  {
  }

  lemma Nested(a: seq<byte>, b: seq<byte>, c: seq<byte>, d: seq<byte>)
    ensures a + (b + (c + d)) == (a + (b + c)) + d
  {
  }

  lemma Chained(a: seq<byte>, b: seq<byte>, c: seq<byte>, d: seq<byte>)
    ensures a + (b + (c + d)) == ((a + b) + c) + d
  {
  }
}
