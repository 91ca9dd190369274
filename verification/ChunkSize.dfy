/** The size field of a chunk-size line. */
module ChunkSize {
  import opened Basics

  const SEMICOLON: byte := 59
  const PLUS: byte := 43

  /** Chunk sizes are 64-bit machine words. */
  const USIZE_LIMIT := 0x1_0000_0000_0000_0000

  predicate AllHex(s: Bytes) {
    forall i :: 0 <= i < |s| ==> HexDigit(s[i]).Some?
  }

  function HexValue(s: Bytes): nat
    requires AllHex(s)
  {
    if s == [] then 0 else 16 * HexValue(s[..|s| - 1]) + HexDigit(s[|s| - 1]).value
  }

  /** The length of the whitespace character a byte string starts with, 0 when
      it starts with none: the White_Space code points in their UTF-8 form. */
  function SpaceAtStart(s: Bytes): (n: nat)
    ensures n <= |s|
  {
    if s == [] then 0
    else if 9 <= s[0] <= 13 || s[0] == 32 then 1
    else if |s| >= 2 && WideSpace2(s[0], s[1]) then 2
    else if |s| >= 3 && WideSpace3(s[0], s[1], s[2]) then 3
    else 0
  }

  function SpaceAtEnd(s: Bytes): (n: nat)
    ensures n <= |s|
  {
    var k := |s|;
    if s == [] then 0
    else if 9 <= s[k - 1] <= 13 || s[k - 1] == 32 then 1
    else if k >= 2 && WideSpace2(s[k - 2], s[k - 1]) then 2
    else if k >= 3 && WideSpace3(s[k - 3], s[k - 2], s[k - 1]) then 3
    else 0
  }

  predicate WideSpace2(a: byte, b: byte) {
    a == 0xC2 && (b == 0x85 || b == 0xA0)
  }

  predicate WideSpace3(a: byte, b: byte, c: byte) {
    || (a == 0xE1 && b == 0x9A && c == 0x80)
    || (a == 0xE2 && b == 0x80 && (0x80 <= c <= 0x8A || c == 0xA8 || c == 0xA9 || c == 0xAF))
    || (a == 0xE2 && b == 0x81 && c == 0x9F)
    || (a == 0xE3 && b == 0x80 && c == 0x80)
  }

  function TrimStart(s: Bytes): Bytes
    decreases |s|
  {
    var n := SpaceAtStart(s);
    if n == 0 then s else TrimStart(s[n..])
  }

  function TrimEnd(s: Bytes): Bytes
    decreases |s|
  {
    var n := SpaceAtEnd(s);
    if n == 0 then s else TrimEnd(s[..|s| - n])
  }

  /** An unsigned base-16 number: an optional plus sign, at least one digit, and
      a value that fits the machine word. A text that is not UTF-8 is never one,
      because what is left after trimming must be plain digits. */
  function ParseHex(s: Bytes): Option<nat> {
    var digits := if s != [] && s[0] == PLUS then s[1..] else s;
    if digits != [] && AllHex(digits) && HexValue(digits) < USIZE_LIMIT then Some(HexValue(digits)) else None
  }

  /** The size a chunk-size line announces; what follows a semicolon is an
      extension. */
  function SizeOf(line: Bytes): Option<nat> {
    ParseHex(TrimEnd(TrimStart(line[..IndexOf(line, SEMICOLON)])))
  }

  function HexPrint(n: nat): (r: Bytes)
    ensures r != [] && AllHex(r) && HexValue(r) == n
  {
    var d: byte := if n % 16 < 10 then 48 + n % 16 else 87 + n % 16;
    if n < 16 then
      assert [d][..0] == [];
      [d]
    else
      var r := HexPrint(n / 16) + [d];
      assert r[..|r| - 1] == HexPrint(n / 16);
      r
  }

  // ---- What the field may look like ----

  /** One whitespace character. */
  predicate IsSpace(t: Bytes) {
    || (|t| == 1 && (9 <= t[0] <= 13 || t[0] == 32))
    || (|t| == 2 && WideSpace2(t[0], t[1]))
    || (|t| == 3 && WideSpace3(t[0], t[1], t[2]))
  }

  /** The White_Space code points of Unicode. */
  predicate WhiteSpace(cp: nat) {
    || 0x9 <= cp <= 0xD || cp == 0x20 || cp == 0x85 || cp == 0xA0 || cp == 0x1680 || 0x2000 <= cp <= 0x200A
    || cp == 0x2028 || cp == 0x2029 || cp == 0x202F || cp == 0x205F || cp == 0x3000
  }

  /** `t` is `cp` in UTF-8 (section 3 of RFC 3629). */
  predicate IsUtf8(t: Bytes, cp: nat) {
    || (|t| == 1 && cp == t[0] < 0x80)
    || (|t| == 2 && 0x80 <= cp < 0x800 && 0xC0 <= t[0] < 0xE0 && 0x80 <= t[1] < 0xC0
        && cp == 64 * (t[0] as int - 0xC0) + (t[1] as int - 0x80))
    || (|t| == 3 && 0x800 <= cp < 0x10000 && 0xE0 <= t[0] < 0xF0 && 0x80 <= t[1] < 0xC0 && 0x80 <= t[2] < 0xC0
        && cp == 4096 * (t[0] as int - 0xE0) + 64 * (t[1] as int - 0x80) + (t[2] as int - 0x80))
  }

  /** The characters trimmed are exactly those. */
  lemma IsSpaceExactly(t: Bytes)
    ensures IsSpace(t) <==> exists cp: nat :: WhiteSpace(cp) && IsUtf8(t, cp)
  {
    if IsSpace(t) {
      var cp: int := if |t| == 1 then t[0] as int
                     else if |t| == 2 then 64 * (t[0] as int - 0xC0) + (t[1] as int - 0x80)
                     else 4096 * (t[0] as int - 0xE0) + 64 * (t[1] as int - 0x80) + (t[2] as int - 0x80);
      assert WhiteSpace(cp) && IsUtf8(t, cp);
    }
  }

  /** Nothing but whitespace. */
  ghost predicate Blank(s: Bytes)
    decreases |s|
  {
    s == [] || exists n :: 0 < n <= |s| && IsSpace(s[..n]) && Blank(s[n..])
  }

  lemma SpaceStarts(t: Bytes, s: Bytes)
    requires IsSpace(t)
    ensures SpaceAtStart(t + s) == |t|
  {
    assert forall i :: 0 <= i < |t| ==> (t + s)[i] == t[i];
  }

  lemma SpaceEnds(s: Bytes, t: Bytes)
    requires IsSpace(t)
    ensures SpaceAtEnd(s + t) == |t|
  {
    assert forall i :: 0 <= i < |t| ==> (s + t)[|s| + i] == t[i];
  }

  lemma StartIsSpace(s: Bytes)
    requires SpaceAtStart(s) > 0
    ensures IsSpace(s[..SpaceAtStart(s)])
  {
  }

  lemma EndIsSpace(s: Bytes)
    requires SpaceAtEnd(s) > 0
    ensures IsSpace(s[|s| - SpaceAtEnd(s)..])
  {
  }

  lemma {:induction false} BlankCons(t: Bytes, s: Bytes)
    requires IsSpace(t) && Blank(s)
    ensures Blank(t + s)
  {
    assert (t + s)[..|t|] == t && (t + s)[|t|..] == s;
  }

  lemma {:induction false} BlankSnoc(s: Bytes, t: Bytes)
    requires Blank(s) && IsSpace(t)
    ensures Blank(s + t)
    decreases |s|
  {
    hide IsSpace;
    if s == [] {
      BlankCons(t, []);
      assert t + [] == t && s + t == t;
    } else {
      var n :| 0 < n <= |s| && IsSpace(s[..n]) && Blank(s[n..]);
      BlankSnoc(s[n..], t);
      BlankCons(s[..n], s[n..] + t);
      assert s + t == s[..n] + (s[n..] + t);
    }
  }

  /** The last character of blank text. */
  lemma {:induction false} BlankLast(s: Bytes) returns (front: Bytes, t: Bytes)
    requires Blank(s) && s != []
    ensures s == front + t && Blank(front) && IsSpace(t)
    decreases |s|
  {
    hide IsSpace;
    var n :| 0 < n <= |s| && IsSpace(s[..n]) && Blank(s[n..]);
    if n == |s| {
      front, t := [], s;
      assert s[..n] == s;
    } else {
      front, t := BlankLast(s[n..]);
      BlankCons(s[..n], front);
      assert s == s[..n] + front + t;
      front := s[..n] + front;
    }
  }

  lemma {:induction false} TrimStartSplits(s: Bytes) returns (a: Bytes)
    ensures s == a + TrimStart(s) && Blank(a)
    decreases |s|
  {
    hide IsSpace;
    var n := SpaceAtStart(s);
    if n == 0 {
      a := [];
    } else {
      StartIsSpace(s);
      a := TrimStartSplits(s[n..]);
      BlankCons(s[..n], a);
      Concat3(s[..n], a, TrimStart(s));
      a := s[..n] + a;
    }
  }

  lemma {:induction false} TrimEndSplits(s: Bytes) returns (b: Bytes)
    ensures s == TrimEnd(s) + b && Blank(b)
    decreases |s|
  {
    hide IsSpace;
    var n := SpaceAtEnd(s);
    if n == 0 {
      b := [];
    } else {
      EndIsSpace(s);
      b := TrimEndSplits(s[..|s| - n]);
      BlankSnoc(b, s[|s| - n..]);
      Concat3(TrimEnd(s), b, s[|s| - n..]);
      b := b + s[|s| - n..];
    }
  }

  lemma {:induction false} TrimStartBlank(a: Bytes, s: Bytes)
    requires Blank(a)
    ensures TrimStart(a + s) == TrimStart(s)
    decreases |a|
  {
    hide IsSpace, SpaceAtStart;
    if a == [] {
      assert a + s == s;
    } else {
      var n :| 0 < n <= |a| && IsSpace(a[..n]) && Blank(a[n..]);
      assert a + s == a[..n] + (a[n..] + s);
      SpaceStarts(a[..n], a[n..] + s);
      assert (a + s)[n..] == a[n..] + s;
      TrimStartBlank(a[n..], s);
    }
  }

  lemma {:induction false} TrimEndBlank(s: Bytes, b: Bytes)
    requires Blank(b)
    ensures TrimEnd(s + b) == TrimEnd(s)
    decreases |b|
  {
    hide IsSpace, SpaceAtEnd;
    if b == [] {
      assert s + b == s;
    } else {
      var front, t := BlankLast(b);
      Concat3(s, front, t);
      SpaceEnds(s + front, t);
      SpaceNotEmpty(t);
      assert (s + b)[..|s + b| - |t|] == s + front;
      TrimEndBlank(s, front);
    }
  }

  lemma SpaceNotEmpty(t: Bytes)
    requires IsSpace(t)
    ensures t != []
  {
  }

  /** Digits with an optional plus sign: what is left of a size when trimmed. */
  function Signed(plus: bool, digits: Bytes): Bytes {
    if plus then [43] + digits else digits
  }

  ghost predicate Number(digits: Bytes, n: nat) {
    digits != [] && AllHex(digits) && HexValue(digits) == n < 18_446_744_073_709_551_616
  }

  lemma NumberIsTrim(plus: bool, digits: Bytes, n: nat)
    requires Number(digits, n)
    ensures TrimStart(Signed(plus, digits)) == Signed(plus, digits) == TrimEnd(Signed(plus, digits))
    ensures forall b: Bytes :: SpaceAtStart(Signed(plus, digits) + b) == 0
    ensures ParseHex(Signed(plus, digits)) == Some(n)
  {
    hide HexValue;
    var s := Signed(plus, digits);
    assert HexDigit(digits[0]).Some? && HexDigit(digits[|digits| - 1]).Some?;
    assert s[|s| - 1] == digits[|digits| - 1];
    assert SpaceAtStart(s) == 0 && SpaceAtEnd(s) == 0;
    assert plus ==> s[1..] == digits;
    forall b: Bytes
      ensures SpaceAtStart(s + b) == 0
    {
      assert (s + b)[0] == s[0];
    }
  }

  lemma ParsedIsNumber(s: Bytes) returns (plus: bool, digits: Bytes)
    requires ParseHex(s).Some?
    ensures s == Signed(plus, digits) && Number(digits, ParseHex(s).value)
  {
    hide HexValue;
    plus := s[0] == PLUS;
    digits := if plus then s[1..] else s;
  }

  /** A field reads as `n` exactly when it is a number of that value, within the
      machine word, between blanks. */
  ghost predicate Field(field: Bytes, a: Bytes, plus: bool, digits: Bytes, b: Bytes, n: nat) {
    Blank(a) && Blank(b) && Number(digits, n) && field == a + (Signed(plus, digits) + b)
  }

  lemma FieldReads(field: Bytes, a: Bytes, plus: bool, digits: Bytes, b: Bytes, n: nat)
    requires Field(field, a, plus, digits, b, n)
    ensures ParseHex(TrimEnd(TrimStart(field))) == Some(n)
  {
    hide Blank, Number, ParseHex, TrimEnd;
    var s := Signed(plus, digits);
    NumberIsTrim(plus, digits, n);
    TrimStartBlank(a, s + b);
    assert TrimStart(s + b) == s + b;
    TrimEndBlank(s, b);
  }

  ghost predicate ReadsAs(field: Bytes, n: nat) {
    exists a, plus, digits, b :: Field(field, a, plus, digits, b, n)
  }

  lemma ReadIsField(field: Bytes)
    requires ParseHex(TrimEnd(TrimStart(field))).Some?
    ensures ReadsAs(field, ParseHex(TrimEnd(TrimStart(field))).value)
  {
    hide Blank, Number, ParseHex, TrimStart, TrimEnd, Signed;
    var a := TrimStartSplits(field);
    var b := TrimEndSplits(TrimStart(field));
    var plus, digits := ParsedIsNumber(TrimEnd(TrimStart(field)));
    assert Field(field, a, plus, digits, b, ParseHex(TrimEnd(TrimStart(field))).value);
  }

  /** The size a line announces, both ways: the field up to the first semicolon
      is a number between blanks. */
  lemma SizeOfExactly(line: Bytes, n: nat)
    ensures SizeOf(line) == Some(n) <==> ReadsAs(line[..IndexOf(line, 59)], n)
  {
    hide IndexOf, Field, ParseHex, TrimStart, TrimEnd;
    var field := line[..IndexOf(line, SEMICOLON)];
    if SizeOf(line) == Some(n) {
      ReadIsField(field);
    }
    if ReadsAs(field, n) {
      var a, plus, digits, b :| Field(field, a, plus, digits, b, n);
      FieldReads(field, a, plus, digits, b, n);
    }
  }

  /** Any hex digits, in either case and with any leading zeros, with or without
      an extension, are read as their value. */
  lemma SizeLine(digits: Bytes, ext: Bytes)
    requires digits != [] && AllHex(digits) && HexValue(digits) < USIZE_LIMIT
    ensures SizeOf(digits) == Some(HexValue(digits))
    ensures SizeOf(digits + ([SEMICOLON] + ext)) == Some(HexValue(digits))
  {
    hide HexValue, TrimStart, TrimEnd, ParseHex;
    assert digits == [] + (digits + []);
    FieldReads(digits, [], false, digits, [], HexValue(digits));
    assert forall k :: 0 <= k < |digits| ==> HexDigit(digits[k]).Some?;
    IndexOfAppend(digits, [SEMICOLON] + ext, SEMICOLON);
    IndexOfAppend(digits, [], SEMICOLON);
    assert digits + [] == digits && digits[..|digits|] == digits;
    assert (digits + ([SEMICOLON] + ext))[..|digits|] == digits;
  }
}
