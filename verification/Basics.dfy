/** Bytes, options and the few facts about sequences every module leans on. */
module Basics {

  type byte = b: int | 0 <= b < 0x100
  type Bytes = seq<byte>

  const LF: byte := 10
  const CR: byte := 13

  datatype Option<+T> = None | Some(value: T)

  /** The position of the first `b` in `s`, or `|s|` when there is none. */
  function IndexOf<T(==)>(s: seq<T>, b: T): (i: nat)
    ensures i <= |s| && forall k :: 0 <= k < i ==> s[k] != b
    ensures i < |s| ==> s[i] == b
  {
    if s == [] then 0 else if s[0] == b then 0 else 1 + IndexOf(s[1..], b)
  }

  /** Behind a part without `x`, the first `x` is where the next part begins. */
  lemma IndexOfAppend<T>(a: seq<T>, b: seq<T>, x: T)
    requires x !in a && (b == [] || b[0] == x)
    ensures IndexOf(a + b, x) == |a|
  {
    assert forall k :: 0 <= k < |a| ==> (a + b)[k] == a[k];
    assert b != [] ==> (a + b)[|a|] == x;
  }

  /** The value of a hexadecimal digit, in either case. */
  function HexDigit(b: byte): (v: Option<nat>)
    ensures v.Some? ==> v.value < 16
  {
    if 48 <= b <= 57 then Some(b - 48)
    else if 65 <= b <= 70 then Some(b - 55)
    else if 97 <= b <= 102 then Some(b - 87)
    else None
  }

  /** The digits, written out. */
  lemma HexDigitExactly(b: byte, v: nat)
    ensures HexDigit(b) == Some(v) <==>
            v < 16 && (b as char == "0123456789abcdef"[v] || b as char == "0123456789ABCDEF"[v])
  {
  }

  lemma Concat3<T>(a: seq<T>, b: seq<T>, c: seq<T>)
    ensures a + b + c == a + (b + c)
  {
  }

  lemma Split3<T>(s: seq<T>, i: nat, j: nat)
    requires i <= j <= |s|
    ensures s == s[..i] + s[i..j] + s[j..]
  {
  }
}
