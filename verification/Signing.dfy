/** Signed envelopes: the canonical string, the signature over it and the
freshness of a timestamp. The hash and the keyed hash are parameters. */
module Signing {
  import opened Basics

  const I64_MIN := -0x8000_0000_0000_0000
  const I64_MAX := 0x7FFF_FFFF_FFFF_FFFF

  type i64 = n: int | I64_MIN <= n <= I64_MAX

  /** A 32-byte digest. */
  type Digest = d: Bytes | |d| == 32 witness seq(32, _ => 0)

  /** SHA-256 and HMAC-SHA256 (RFC 2104), of which nothing is assumed. */
  datatype Crypto = Crypto(sha256: Bytes -> Digest, hmac: (Bytes, string) -> Digest)

  // ---- Printing numbers ----

  function DigitChar(d: nat): (c: char)
    requires d < 16
    ensures c != '.' && c != '-'
  {
    if d < 10 then (48 + d) as char else (87 + d) as char
  }

  function DigitValue(c: char): nat {
    if '0' <= c <= '9' then c as int - 48 else if 'a' <= c <= 'f' then c as int - 87 else 0
  }

  lemma DigitRoundTrip(d: nat)
    requires d < 16
    ensures DigitValue(DigitChar(d)) == d
  {
  }

  function PrintNat(n: nat): (s: string)
    ensures s != "" && '.' !in s && '-' !in s
  {
    if n < 10 then [DigitChar(n)] else PrintNat(n / 10) + [DigitChar(n % 10)]
  }

  function ReadNat(s: string): nat {
    if s == "" then 0 else 10 * ReadNat(s[..|s| - 1]) + DigitValue(s[|s| - 1])
  }

  lemma {:induction false} ReadPrintedNat(n: nat)
    ensures ReadNat(PrintNat(n)) == n
  {
    hide DigitChar, DigitValue;
    DigitRoundTrip(n % 10);
    if n < 10 {
      assert [DigitChar(n)][..0] == "";
    } else {
      ReadPrintedNat(n / 10);
      var s := PrintNat(n);
      assert s[..|s| - 1] == PrintNat(n / 10);
    }
  }

  function PrintInt(n: int): (s: string)
    ensures s != "" && '.' !in s
  {
    if n < 0 then "-" + PrintNat(-n) else PrintNat(n)
  }

  /** A sign stands in front of negative numbers only. */
  lemma PrintIntIsDecimal(n: int)
    ensures n < 0 <==> PrintInt(n)[0] == '-'
    ensures n < 0 ==> PrintInt(n)[1..] == PrintNat(-n)
    ensures n >= 0 ==> PrintInt(n) == PrintNat(n)
  {
    hide PrintNat;
  }

  function ReadInt(s: string): int {
    if s != "" && s[0] == '-' then 0 - ReadNat(s[1..]) else ReadNat(s)
  }

  lemma ReadPrintedInt(n: int)
    ensures ReadInt(PrintInt(n)) == n
  {
    hide ReadNat, PrintNat;
    if n < 0 {
      ReadPrintedNat(-n);
      assert PrintInt(n)[1..] == PrintNat(-n);
    } else {
      ReadPrintedNat(n);
    }
  }

  /** Decimal notation. */
  ghost function Decimal(s: string): int {
    if s == "" then 0 else 10 * Decimal(s[..|s| - 1]) + (s[|s| - 1] as int - '0' as int)
  }

  /** A number is printed in decimal digits, without leading zeros. */
  lemma {:induction false} PrintNatIsDecimal(n: nat)
    ensures Decimal(PrintNat(n)) == n
    ensures forall i :: 0 <= i < |PrintNat(n)| ==> '0' <= PrintNat(n)[i] <= '9'
    ensures PrintNat(n)[0] == '0' ==> n == 0
  {
    if n < 10 {
      assert [DigitChar(n)][..0] == "";
    } else {
      PrintNatIsDecimal(n / 10);
      var s := PrintNat(n);
      assert s[..|s| - 1] == PrintNat(n / 10) && s[0] == PrintNat(n / 10)[0];
    }
  }

  /** Lower-case hexadecimal, two characters a byte. */
  function HexEncode(d: Bytes): (s: string)
    ensures |s| == 2 * |d| && '.' !in s
  {
    if d == [] then "" else [DigitChar(d[0] / 16), DigitChar(d[0] % 16)] + HexEncode(d[1..])
  }

  /** Each byte is its two digits, written out. */
  lemma {:induction false} HexEncodeIs(d: Bytes, i: nat)
    requires i < |d|
    ensures HexEncode(d)[2 * i] == "0123456789abcdef"[d[i] / 16]
    ensures HexEncode(d)[2 * i + 1] == "0123456789abcdef"[d[i] % 16]
  {
    DigitIs(d[i] / 16);
    DigitIs(d[i] % 16);
    if i > 0 {
      HexEncodeIs(d[1..], i - 1);
      assert HexEncode(d)[2..] == HexEncode(d[1..]);
    }
  }

  lemma DigitIs(v: nat)
    requires v < 16
    ensures DigitChar(v) == "0123456789abcdef"[v]
  {
  }

  lemma {:induction false} HexEncodeInjective(a: Bytes, b: Bytes)
    requires HexEncode(a) == HexEncode(b)
    ensures a == b
  {
    hide DigitChar, DigitValue;
    if a != [] && b != [] {
      var x, y := HexEncode(a), HexEncode(b);
      assert x[0] == y[0] && x[1] == y[1];
      assert x[2..] == HexEncode(a[1..]) && y[2..] == HexEncode(b[1..]);
      HexEncodeInjective(a[1..], b[1..]);
      DigitRoundTrip(a[0] / 16);
      DigitRoundTrip(b[0] / 16);
      DigitRoundTrip(a[0] % 16);
      DigitRoundTrip(b[0] % 16);
      assert a[0] == b[0];
      assert a == [a[0]] + a[1..] && b == [b[0]] + b[1..];
    }
  }

  // ---- The canonical string ----

  /** The fields a signature covers; the payload only through its hash. */
  datatype Fields = Fields(kind: string, timestamp: i64, nonce: string, payloadHash: string)

  function CanonicalString(f: Fields): string {
    f.kind + "." + PrintInt(f.timestamp) + "." + f.nonce + "." + f.payloadHash
  }

  /** Reads a canonical string back: the kind up to the first dot, the
      timestamp up to the next, the hash as the last 64 characters. */
  function ReadCanonical(s: string): Option<Fields> {
    var i := IndexOf(s, '.');
    if i == |s| then None
    else
      var rest := s[i + 1..];
      var j := IndexOf(rest, '.');
      if j == |rest| || |rest| < j + 66 then None
      else
        var ts, k := ReadInt(rest[..j]), |rest| - 64;
        if I64_MIN <= ts <= I64_MAX then Some(Fields(s[..i], ts, rest[j + 1..k - 1], rest[k..])) else None
  }

  /** Cutting at the first dot. */
  lemma DotSplits(head: string, tail: string)
    requires '.' !in head
    ensures var s := head + "." + tail;
            IndexOf(s, '.') == |head| && s[..|head|] == head && s[|head| + 1..] == tail
  {
    hide IndexOf;
    IndexOfAppend(head, "." + tail, '.');
    assert head + "." + tail == head + ("." + tail);
  }

  lemma ReadAt(s: string, i: nat, j: nat)
    requires i == IndexOf(s, '.') < |s| && j == IndexOf(s[i + 1..], '.') && j + 66 <= |s| - i - 1
    requires I64_MIN <= ReadInt(s[i + 1..][..j]) <= I64_MAX
    ensures var rest := s[i + 1..];
            ReadCanonical(s) == Some(Fields(s[..i], ReadInt(rest[..j]), rest[j + 1..|rest| - 65], rest[|rest| - 64..]))
  {
    hide IndexOf, ReadInt;
  }

  /** The canonical string determines every signed field, for any timestamp and
      any nonce, as long as the kind has no dot. */
  lemma CanonicalRoundTrip(f: Fields)
    requires '.' !in f.kind && |f.payloadHash| == 64
    ensures ReadCanonical(CanonicalString(f)) == Some(f)
  {
    hide IndexOf, ReadInt, PrintInt, ReadCanonical;
    var ts := PrintInt(f.timestamp);
    var tail := f.nonce + "." + f.payloadHash;
    var rest := ts + "." + tail;
    CanonicalParts(f);
    hide CanonicalString;
    DotSplits(f.kind, rest);
    DotSplits(ts, tail);
    LastParts(ts, f.nonce, f.payloadHash);
    ReadPrintedInt(f.timestamp);
    var s := f.kind + "." + rest;
    assert |s| - |f.kind| - 1 == |rest| && |ts| + 66 <= |rest|;
    ReadAt(s, |f.kind|, |ts|);
  }

  lemma CanonicalParts(f: Fields)
    ensures CanonicalString(f) == f.kind + "." + (PrintInt(f.timestamp) + "." + (f.nonce + "." + f.payloadHash))
  {
    hide PrintInt;
    var ts, tail := PrintInt(f.timestamp), f.nonce + "." + f.payloadHash;
    Concat3(f.kind + ".", ts, ".");
    Concat3(f.kind + "." + ts + ".", f.nonce, ".");
    Concat3(f.kind + "." + ts + "." + f.nonce, ".", f.payloadHash);
    Concat3(f.kind + ".", ts + ".", tail);
    assert f.kind + "." + ts + "." + f.nonce + "." + f.payloadHash == f.kind + "." + ts + "." + tail;
  }

  /** Nonce and hash behind the timestamp. */
  lemma LastParts(ts: string, nonce: string, hash: string)
    ensures var rest := ts + "." + (nonce + "." + hash);
            var k := |rest| - |hash|;
            |ts| + 1 <= k - 1 && rest[k..] == hash && rest[|ts| + 1..k - 1] == nonce
  {
  }

  lemma CanonicalInjective(f: Fields, g: Fields)
    requires '.' !in f.kind && '.' !in g.kind
    requires |f.payloadHash| == 64 && |g.payloadHash| == 64
    requires CanonicalString(f) == CanonicalString(g)
    ensures f == g
  {
    hide CanonicalString, ReadCanonical;
    CanonicalRoundTrip(f);
    CanonicalRoundTrip(g);
  }

  /** Every envelope kind of the protocol is free of dots ... */
  lemma EnvelopeKindsHaveNoDot(kind: string)
    requires kind in {"hello", "heartbeat", "event", "ack", "command"}
    ensures '.' !in kind
  {
  }

  /** ... and with a dot the string would be ambiguous. */
  lemma DottedKindIsAmbiguous(hash: string)
    ensures CanonicalString(Fields("a.1", 2, "x", hash)) == CanonicalString(Fields("a", 1, "2.x", hash))
  {
    assert PrintInt(1) == "1" && PrintInt(2) == "2";
  }

  // ---- Which signed fields another kind can pass for ----

  /** Some piece of the nonce in front of a dot is a printed timestamp. */
  ghost predicate HoldsTimestamp(nonce: string) {
    exists a: string, t: i64, b: string :: "." + nonce == Framed(a, t, b)
  }

  function Framed(a: string, t: i64, b: string): string {
    a + "." + PrintInt(t) + "." + b
  }

  /** The signed text in front of the hash. */
  function Stem(f: Fields): string {
    f.kind + "." + PrintInt(f.timestamp) + "." + f.nonce
  }

  lemma SameStem(f: Fields, g: Fields)
    requires |f.payloadHash| == |g.payloadHash| == 64
    ensures CanonicalString(f) == CanonicalString(g) <==> Stem(f) == Stem(g) && f.payloadHash == g.payloadHash
  {
    hide PrintInt;
    var s, t := CanonicalString(f), CanonicalString(g);
    assert s == Stem(f) + "." + f.payloadHash && t == Stem(g) + "." + g.payloadHash;
    if s == t {
      var k := |s| - 64;
      assert s[k..] == f.payloadHash && t[k..] == g.payloadHash;
      assert s[..k - 1] == Stem(f) && t[..k - 1] == Stem(g);
    }
  }

  /** Dot-free heads of equal dotted texts are equal, and so are the tails. */
  lemma SameHead(a: string, x: string, b: string, y: string)
    requires '.' !in a && '.' !in b && a + "." + x == b + "." + y
    ensures a == b && x == y
  {
    DotSplits(a, x);
    DotSplits(b, y);
  }

  lemma SplitAtDot(s: string) returns (head: string, tail: string)
    requires '.' in s
    ensures '.' !in head && s == head + "." + tail
  {
    hide IndexOf;
    var i := IndexOf(s, '.');
    head, tail := s[..i], s[i + 1..];
    Split3(s, i, i + 1);
    assert s[i..i + 1] == ".";
  }

  lemma Dots3(a: string, b: string, c: string)
    ensures a + "." + b + "." + c == a + "." + (b + "." + c)
  {
  }

  /** If two different field tuples share a string and one kind has no dot, the
      other kind has swallowed the timestamp and part of the nonce. */
  lemma OtherKindSwallows(f: Fields, g: Fields)
    requires '.' !in f.kind && '.' in g.kind && Stem(f) == Stem(g)
    ensures HoldsTimestamp(f.nonce)
  {
    hide PrintInt;
    var ts, us := PrintInt(f.timestamp), PrintInt(g.timestamp);
    var head, r := SplitAtDot(g.kind);
    Dots3(f.kind, ts, f.nonce);
    assert Stem(g) == head + "." + (r + "." + us + "." + g.nonce);
    SameHead(f.kind, ts + "." + f.nonce, head, r + "." + us + "." + g.nonce);
    if '.' in r {
      var r1, r2 := SplitAtDot(r);
      assert r + "." + us + "." + g.nonce == r1 + "." + (r2 + "." + us + "." + g.nonce);
      SameHead(ts, f.nonce, r1, r2 + "." + us + "." + g.nonce);
      assert "." + f.nonce == Framed("." + r2, g.timestamp, g.nonce);
    } else {
      Dots3(r, us, g.nonce);
      SameHead(ts, f.nonce, r, us + "." + g.nonce);
      assert "." + f.nonce == Framed("", g.timestamp, g.nonce);
    }
  }

  /** Conversely such a nonce lets another kind pass for it. */
  lemma SwallowedFields(f: Fields) returns (g: Fields)
    requires HoldsTimestamp(f.nonce)
    ensures '.' in g.kind && g.payloadHash == f.payloadHash && Stem(g) == Stem(f)
  {
    hide PrintInt;
    var a: string, t: i64, b: string :| "." + f.nonce == Framed(a, t, b);
    var front := f.kind + "." + PrintInt(f.timestamp);
    g := Fields(front + a, t, b, f.payloadHash);
    assert g.kind[|f.kind|] == '.';
    assert Stem(g) == front + Framed(a, t, b);
    assert Stem(f) == front + ("." + f.nonce);
  }

  /** For a kind without a dot, the canonical string determines the signed fields
      among all field tuples, dotted kinds included, exactly when no piece of the
      nonce in front of a dot reads as a timestamp. */
  lemma CanonicalDeterminesExactly(f: Fields)
    requires '.' !in f.kind && |f.payloadHash| == 64
    ensures !HoldsTimestamp(f.nonce) <==>
            forall g: Fields :: |g.payloadHash| == 64 && CanonicalString(g) == CanonicalString(f) ==> g == f
  {
    hide CanonicalString, HoldsTimestamp, Stem;
    if HoldsTimestamp(f.nonce) {
      var g := SwallowedFields(f);
      SameStem(f, g);
    } else {
      forall g: Fields | |g.payloadHash| == 64 && CanonicalString(g) == CanonicalString(f)
        ensures g == f
      {
        SameStem(f, g);
        if '.' in g.kind {
          OtherKindSwallows(f, g);
        } else {
          CanonicalInjective(f, g);
        }
      }
    }
  }

  /** The random nonces of the daemon are hexadecimal, hence harmless. */
  lemma HexNonceIsHarmless(random: Bytes)
    ensures !HoldsTimestamp(HexEncode(random))
  {
    hide HexEncode, PrintInt;
    var nonce := HexEncode(random);
    forall a: string, t: i64, b: string
      ensures "." + nonce != Framed(a, t, b)
    {
      var s, k := "." + nonce, |a| + 1 + |PrintInt(t)|;
      assert Framed(a, t, b)[k] == '.';
      assert k < |s| ==> s[k] == nonce[k - 1];
    }
  }

  // ---- Signatures ----

  datatype Envelope = Envelope(kind: string, timestamp: i64, nonce: string, payload: Bytes, sig: string)

  function SignedFields(c: Crypto, kind: string, timestamp: i64, nonce: string, payload: Bytes): Fields {
    Fields(kind, timestamp, nonce, HexEncode(c.sha256(payload)))
  }

  function Sign(c: Crypto, secret: Bytes, kind: string, timestamp: i64, nonce: string, payload: Bytes): string {
    HexEncode(c.hmac(secret, CanonicalString(SignedFields(c, kind, timestamp, nonce, payload))))
  }

  /** Builds an envelope at the given time with the given nonce. */
  function MakeSigned(c: Crypto, secret: Bytes, kind: string, payload: Bytes, now: i64, nonce: string): Envelope {
    Envelope(kind, now, nonce, payload, Sign(c, secret, kind, now, nonce, payload))
  }

  /** 64-bit two's-complement wrap-around of a difference of two i64 values. */
  function Wrap(x: int): int {
    if x > I64_MAX then x - 0x1_0000_0000_0000_0000
    else if x < I64_MIN then x + 0x1_0000_0000_0000_0000
    else x
  }

  /** The one number of that width that differs by a multiple of 2^64. */
  lemma WrapExactly(a: i64, b: i64, w: int)
    ensures w == Wrap(a - b) <==>
            && -0x8000_0000_0000_0000 <= w <= 0x7FFF_FFFF_FFFF_FFFF
            && (|| w == a - b || w == a - b - 0x1_0000_0000_0000_0000 || w == a - b + 0x1_0000_0000_0000_0000)
  {
  }

  /** The absolute value of an optimised build: the least i64 is its own. */
  function WrappingAbs(x: int): int {
    if x == I64_MIN then x else if x < 0 then -x else x
  }

  const MAX_CLOCK_SKEW_SECS := 30

  predicate IsFresh(now: i64, timestamp: i64) {
    WrappingAbs(Wrap(now - timestamp)) <= MAX_CLOCK_SKEW_SECS
  }

  predicate Verify(c: Crypto, secret: Bytes, e: Envelope, now: i64) {
    IsFresh(now, e.timestamp) && Sign(c, secret, e.kind, e.timestamp, e.nonce, e.payload) == e.sig
  }

  /** Clocks of any era this software can meet. */
  const CLOCK_LIMIT := 0x4000_0000_0000_0000

  /** What the freshness test really accepts: the 30-second window, and one
      timestamp exactly 2^63 seconds in the past, where the subtraction and the
      absolute value both wrap. */
  lemma FreshExactly(now: i64, timestamp: i64)
    requires 0 <= now < CLOCK_LIMIT
    ensures IsFresh(now, timestamp) <==>
            || -30 <= now - timestamp <= 30
            || now - timestamp == 0x8000_0000_0000_0000
  {
  }

  /** What is verified, written out: the time, and the keyed hash of kind,
      timestamp, nonce and payload hash joined by dots. */
  lemma VerifyExactly(c: Crypto, secret: Bytes, e: Envelope, now: i64)
    requires 0 <= now < CLOCK_LIMIT
    ensures Verify(c, secret, e, now) <==>
            && (-30 <= now - e.timestamp <= 30 || now - e.timestamp == 0x8000_0000_0000_0000)
            && var sum := HexEncode(c.sha256(e.payload));
               e.sig == HexEncode(c.hmac(secret, e.kind + "." + PrintInt(e.timestamp) + "." + e.nonce + "." + sum))
  {
    FreshExactly(now, e.timestamp);
  }

  lemma WrappedTimestampPasses(now: i64)
    requires 0 <= now < CLOCK_LIMIT
    ensures IsFresh(now, now - 0x8000_0000_0000_0000)
  {
  }

  /** A signed envelope verifies with its secret for 30 seconds either way. */
  lemma SignedVerifies(c: Crypto, secret: Bytes, kind: string, payload: Bytes, made: i64, nonce: string, now: i64)
    requires 0 <= made < CLOCK_LIMIT && 0 <= now < CLOCK_LIMIT
    ensures Verify(c, secret, MakeSigned(c, secret, kind, payload, made, nonce), now) <==>
            -30 <= now - made <= 30
  {
    FreshExactly(now, made);
  }

  /** No field can be changed under a signature: whatever envelope verifies with
      the signature of a genuine one, dotted kind or not, is that one, unless the
      hash or the keyed hash collides on the two. What is asked is asked of the
      genuine envelope only: its kind has no dot and its nonce holds no
      timestamp, as with every envelope the protocol makes. */
  lemma SignatureBinds(c: Crypto, secret: Bytes, e: Envelope, signed: Envelope, now: i64)
    requires '.' !in signed.kind && !HoldsTimestamp(signed.nonce)
    requires signed.sig == Sign(c, secret, signed.kind, signed.timestamp, signed.nonce, signed.payload)
    requires Verify(c, secret, e, now) && e.sig == signed.sig
    requires var f := SignedFields(c, e.kind, e.timestamp, e.nonce, e.payload);
             var g := SignedFields(c, signed.kind, signed.timestamp, signed.nonce, signed.payload);
             CanonicalString(f) != CanonicalString(g) ==>
               c.hmac(secret, CanonicalString(f)) != c.hmac(secret, CanonicalString(g))
    requires e.payload != signed.payload ==> c.sha256(e.payload) != c.sha256(signed.payload)
    ensures e == signed
  {
    hide CanonicalString, HexEncode, HoldsTimestamp;
    var f := SignedFields(c, e.kind, e.timestamp, e.nonce, e.payload);
    var g := SignedFields(c, signed.kind, signed.timestamp, signed.nonce, signed.payload);
    HexEncodeInjective(c.hmac(secret, CanonicalString(f)), c.hmac(secret, CanonicalString(g)));
    CanonicalDeterminesExactly(g);
    HexEncodeInjective(c.sha256(e.payload), c.sha256(signed.payload));
  }

  /** A signature over a nonce that does hold a timestamp also fits another
      envelope, of another kind, timestamp and nonce. */
  lemma DottedNonceForges(c: Crypto, secret: Bytes, signed: Envelope) returns (e: Envelope)
    requires HoldsTimestamp(signed.nonce) && '.' !in signed.kind
    requires signed.sig == Sign(c, secret, signed.kind, signed.timestamp, signed.nonce, signed.payload)
    ensures e.kind != signed.kind && e.sig == signed.sig && e.payload == signed.payload
    ensures Verify(c, secret, e, e.timestamp)
  {
    hide CanonicalString, HexEncode, HoldsTimestamp, Stem;
    var f := SignedFields(c, signed.kind, signed.timestamp, signed.nonce, signed.payload);
    var g := SwallowedFields(f);
    SameStem(f, g);
    e := Envelope(g.kind, g.timestamp, g.nonce, signed.payload, signed.sig);
  }
}
