/** The hand-written decoder for HTTP/1.1 chunked transfer coding (section 7.1
of RFC 9112) that sits under every large Docker API response. */
module Chunked {
  import opened Basics
  import opened ChunkSize

  datatype Body = Payload(bytes: Bytes) | Malformed

  predicate CrlfAt(s: Bytes, k: nat) {
    k + 1 < |s| && s[k] == CR && s[k + 1] == LF
  }

  ghost predicate CrlfFree(s: Bytes) {
    forall k: nat :: !CrlfAt(s, k)
  }

  /** The position of the first CR LF, or `|s|` when there is none. */
  function FindCrlf(s: Bytes): (i: nat)
    ensures i <= |s| && (i < |s| ==> CrlfAt(s, i))
    ensures forall k: nat :: k < i ==> !CrlfAt(s, k)
  {
    if |s| < 2 then |s|
    else if CrlfAt(s, 0) then 0
    else
      var j := FindCrlf(s[1..]);
      assert forall k: nat :: 0 < k <= j ==> CrlfAt(s, k) == CrlfAt(s[1..], k - 1);
      1 + j
  }

  predicate StartsWithCrlf(s: Bytes) {
    |s| >= 2 && s[0] == CR && s[1] == LF
  }

  function SkipCrlf(s: Bytes): Bytes {
    if StartsWithCrlf(s) then s[2..] else s
  }

  /** One pass of the decoder: a size line, then the data it announces. */
  datatype Pass = Stuck | End | More(data: Bytes, rest: Bytes)

  function Next(s: Bytes): (p: Pass)
    ensures p.More? ==> |p.rest| < |s| && p.data != []
  {
    var nl := FindCrlf(s);
    if nl == |s| then Stuck
    else
      var size := SizeOf(s[..nl]);
      var body := s[nl + 2..];
      if size.None? then Stuck
      else if size.value == 0 then End
      else if |body| < size.value then Stuck
      else More(body[..size.value], SkipCrlf(body[size.value..]))
  }

  function Prepend(data: Bytes, body: Body): Body {
    match body
    case Malformed => Malformed
    case Payload(more) => Payload(data + more)
  }

  /** The decoder, as a function of the whole body. */
  function Decode(s: Bytes): Body
    decreases |s|
  {
    match Next(s)
    case Stuck => Malformed
    case End => Payload([])
    case More(data, rest) => Prepend(data, Decode(rest))
  }

  lemma PrependTwice(a: Bytes, b: Bytes, body: Body)
    ensures Prepend(a + b, body) == Prepend(a, Prepend(b, body))
  {
    if body.Payload? {
      Concat3(a, b, body.bytes);
    }
  }

  /** The loop of the decoder. */
  method Dechunk(data: Bytes) returns (r: Body)
    ensures r == Decode(data)
  {
    hide SizeOf;
    var rest := data;
    var out: Bytes := [];
    assert Prepend(out, Decode(rest)) == Decode(data);
    while true
      invariant Decode(data) == Prepend(out, Decode(rest))
      decreases |rest|
    {
      ghost var pass := Next(rest);
      var nl := FindCrlf(rest);
      if nl == |rest| {
        return Malformed;
      }
      var size := SizeOf(rest[..nl]);
      if size.None? {
        return Malformed;
      }
      rest := rest[nl + 2..];
      if size.value == 0 {
        assert out + [] == out;
        return Payload(out);
      }
      if |rest| < size.value {
        return Malformed;
      }
      PrependTwice(out, pass.data, Decode(pass.rest));
      out := out + rest[..size.value];
      rest := rest[size.value..];
      if |rest| >= 2 && rest[0] == CR && rest[1] == LF {
        rest := rest[2..];
      }
    }
  }

  // ---- What a chunked body is ----

  /** A chunk on the wire: its size line, its data, and whether CR LF follows
      the data. The coding requires the CR LF; the decoder does not. */
  datatype Chunk = Chunk(line: Bytes, data: Bytes, closed: bool) {
    ghost predicate Valid() {
      CrlfFree(line) && data != [] && SizeOf(line) == Some(|data|)
    }

    function Encode(): Bytes {
      line + [13, 10] + data + if closed then [13, 10] else []
    }
  }

  /** The wire form of chunks, a zero-size line and whatever comes after it. */
  function EncodeBody(chunks: seq<Chunk>, last: Bytes, trailer: Bytes): Bytes {
    if chunks == [] then last + [13, 10] + trailer
    else chunks[0].Encode() + EncodeBody(chunks[1..], last, trailer)
  }

  function Joined(chunks: seq<Chunk>): Bytes {
    if chunks == [] then [] else chunks[0].data + Joined(chunks[1..])
  }

  /** The bodies the decoder accepts. A chunk may leave out its CR LF only where
      the next bytes are not one. */
  ghost predicate Accepted(chunks: seq<Chunk>, last: Bytes, trailer: Bytes) {
    && CrlfFree(last) && SizeOf(last) == Some(0)
    && (forall i :: 0 <= i < |chunks| ==> chunks[i].Valid())
    && forall i :: 0 <= i < |chunks| && !chunks[i].closed ==>
         !StartsWithCrlf(EncodeBody(chunks[i + 1..], last, trailer))
  }

  /** A conforming body: every chunk is closed by its CR LF. */
  ghost predicate Conforming(chunks: seq<Chunk>, last: Bytes) {
    && CrlfFree(last) && SizeOf(last) == Some(0)
    && forall i :: 0 <= i < |chunks| ==> chunks[i].Valid() && chunks[i].closed
  }

  lemma CrlfAfter(line: Bytes, tail: Bytes)
    requires CrlfFree(line)
    ensures FindCrlf(line + [CR, LF] + tail) == |line|
  {
    var s := line + [CR, LF] + tail;
    assert CrlfAt(s, |line|);
    forall k: nat | k < |line|
      ensures !CrlfAt(s, k)
    {
      assert !CrlfAt(line, k);
    }
  }

  lemma NextOfChunk(c: Chunk, tail: Bytes)
    requires c.Valid()
    requires !c.closed ==> !StartsWithCrlf(tail)
    ensures Next(c.Encode() + tail) == More(c.data, tail)
  {
    hide SizeOf;
    var after := (if c.closed then [CR, LF] else []) + tail;
    var s := c.Encode() + tail;
    EncodeSplits(c, tail);
    CrlfAfter(c.line, c.data + after);
    assert s[..|c.line|] == c.line;
    var body := s[|c.line| + 2..];
    assert body == c.data + after;
    assert body[..|c.data|] == c.data && body[|c.data|..] == after;
    assert SkipCrlf(after) == tail;
  }

  lemma NextOfLast(last: Bytes, trailer: Bytes)
    requires CrlfFree(last) && SizeOf(last) == Some(0)
    ensures Next(last + [CR, LF] + trailer) == End
  {
    hide SizeOf;
    CrlfAfter(last, trailer);
    assert (last + [CR, LF] + trailer)[..|last|] == last;
  }

  lemma SkipSplits(s: Bytes)
    ensures s == (if StartsWithCrlf(s) then [CR, LF] else []) + SkipCrlf(s)
  {
  }

  lemma LineSplits(s: Bytes, nl: nat)
    requires nl == FindCrlf(s) < |s|
    ensures s == s[..nl] + [CR, LF] + s[nl + 2..]
    ensures CrlfFree(s[..nl])
  {
    hide FindCrlf;
    assert s == s[..nl] + [CR, LF] + s[nl + 2..] by {
      Split3(s, nl, nl + 2);
      assert s[nl..nl + 2] == [CR, LF];
    }
    forall k: nat
      ensures !CrlfAt(s[..nl], k)
    {
      assert k < nl ==> !CrlfAt(s, k);
    }
  }

  lemma NextParts(s: Bytes)
    requires Next(s).More?
    ensures var nl, size := FindCrlf(s), |Next(s).data|;
            && nl < |s| && nl + 2 + size <= |s|
            && SizeOf(s[..nl]) == Some(size)
            && Next(s) == More(s[nl + 2..][..size], SkipCrlf(s[nl + 2..][size..]))
  {
    hide SizeOf, FindCrlf, SkipCrlf;
  }

  lemma ChunkOfNext(s: Bytes) returns (c: Chunk)
    requires Next(s).More?
    ensures c.Valid() && c.data == Next(s).data
    ensures s == c.Encode() + Next(s).rest
    ensures !c.closed ==> !StartsWithCrlf(Next(s).rest)
  {
    hide Next, SizeOf, FindCrlf, CrlfFree, CrlfAt, StartsWithCrlf, SkipCrlf;
    NextParts(s);
    var nl, size := FindCrlf(s), |Next(s).data|;
    LineSplits(s, nl);
    var body := s[nl + 2..];
    var after := body[size..];
    SkipSplits(after);
    c := Chunk(s[..nl], body[..size], StartsWithCrlf(after));
    assert body == c.data + after;
    EncodeSplits(c, Next(s).rest);
  }

  lemma EncodeSplits(c: Chunk, rest: Bytes)
    ensures c.Encode() + rest == c.line + [CR, LF] + (c.data + ((if c.closed then [CR, LF] else []) + rest))
  {
    var head, end := c.line + [CR, LF], if c.closed then [CR, LF] else [];
    Concat3(head + c.data, end, rest);
    Concat3(head, c.data, end + rest);
  }

  lemma LastOfNext(s: Bytes) returns (last: Bytes, trailer: Bytes)
    requires Next(s).End?
    ensures CrlfFree(last) && SizeOf(last) == Some(0)
    ensures s == last + [CR, LF] + trailer
  {
    hide SizeOf, FindCrlf, CrlfFree, CrlfAt;
    var nl := FindCrlf(s);
    LineSplits(s, nl);
    last, trailer := s[..nl], s[nl + 2..];
  }

  /** Every accepted body decodes to its payload ... */
  lemma {:induction false} DecodeAccepted(chunks: seq<Chunk>, last: Bytes, trailer: Bytes)
    requires Accepted(chunks, last, trailer)
    ensures Decode(EncodeBody(chunks, last, trailer)) == Payload(Joined(chunks))
  {
    hide Next, SizeOf, StartsWithCrlf, CrlfFree;
    if chunks == [] {
      NextOfLast(last, trailer);
    } else {
      var rest := chunks[1..];
      assert forall i :: 0 <= i < |rest| ==> rest[i] == chunks[i + 1] && rest[i + 1..] == chunks[i + 2..];
      DecodeAccepted(rest, last, trailer);
      NextOfChunk(chunks[0], EncodeBody(rest, last, trailer));
    }
  }

  /** ... and whatever decodes is an accepted body. */
  lemma {:induction false} DecodedIsAccepted(data: Bytes) returns (chunks: seq<Chunk>, last: Bytes, trailer: Bytes)
    requires Decode(data).Payload?
    ensures Accepted(chunks, last, trailer)
    ensures data == EncodeBody(chunks, last, trailer) && Decode(data).bytes == Joined(chunks)
    decreases |data|
  {
    hide Next, SizeOf, StartsWithCrlf, CrlfFree;
    if Next(data).End? {
      last, trailer := LastOfNext(data);
      chunks := [];
    } else {
      var c := ChunkOfNext(data);
      chunks, last, trailer := DecodedIsAccepted(Next(data).rest);
      AcceptedCons(c, chunks, last, trailer);
      chunks := [c] + chunks;
    }
  }

  lemma AcceptedCons(c: Chunk, chunks: seq<Chunk>, last: Bytes, trailer: Bytes)
    requires c.Valid() && Accepted(chunks, last, trailer)
    requires !c.closed ==> !StartsWithCrlf(EncodeBody(chunks, last, trailer))
    ensures Accepted([c] + chunks, last, trailer)
    ensures EncodeBody([c] + chunks, last, trailer) == c.Encode() + EncodeBody(chunks, last, trailer)
    ensures Joined([c] + chunks) == c.data + Joined(chunks)
  {
    var all := [c] + chunks;
    assert all[1..] == chunks;
    forall i | 0 <= i < |all| && !all[i].closed
      ensures !StartsWithCrlf(EncodeBody(all[i + 1..], last, trailer))
    {
      if i > 0 {
        assert all[i] == chunks[i - 1] && all[i + 1..] == chunks[i..];
      }
    }
  }

  /** The decoder's language and its meaning, both ways. */
  lemma DecodeExactly(data: Bytes, out: Bytes)
    ensures Decode(data) == Payload(out) <==>
            exists chunks, last, trailer :: Accepted(chunks, last, trailer) &&
              data == EncodeBody(chunks, last, trailer) && out == Joined(chunks)
  {
    hide Decode, Accepted, EncodeBody, Joined;
    if Decode(data) == Payload(out) {
      var chunks, last, trailer := DecodedIsAccepted(data);
    }
    forall chunks, last, trailer | Accepted(chunks, last, trailer) && data == EncodeBody(chunks, last, trailer)
      ensures Decode(data) == Payload(Joined(chunks))
    {
      DecodeAccepted(chunks, last, trailer);
    }
  }

  /** Decoding inverts the coding of RFC 9112. */
  lemma DecodeConforming(chunks: seq<Chunk>, last: Bytes, trailer: Bytes)
    requires Conforming(chunks, last)
    ensures Decode(EncodeBody(chunks, last, trailer)) == Payload(Joined(chunks))
  {
    DecodeAccepted(chunks, last, trailer);
  }

  lemma UnclosedChunkDecodes(c: Chunk, last: Bytes)
    requires c.Valid() && !c.closed && CrlfFree(last) && SizeOf(last) == Some(0)
    requires !StartsWithCrlf(last + [CR, LF] + [])
    ensures Decode(c.line + [CR, LF] + c.data + last + [CR, LF]) == Payload(c.data)
  {
    hide SizeOf, Decode, Next, CrlfFree, StartsWithCrlf;
    assert [c][1..] == [];
    assert EncodeBody([], last, []) == last + [CR, LF] + [];
    assert EncodeBody([c], last, []) == c.line + [CR, LF] + c.data + last + [CR, LF];
    assert Joined([]) == [];
    assert Joined([c]) == c.data;
    assert Accepted([c], last, []);
    hide Accepted, EncodeBody, Joined;
    DecodeAccepted([c], last, []);
  }

  /** A chunk without its CR LF decodes as well: one byte announced, sent, and
      followed at once by the last size line. */
  lemma MissingCrlfIsAccepted()
    ensures Decode([0x31, 13, 10, 0x41, 0x30, 13, 10]) == Payload([0x41])
  {
    OneAndZero();
    hide SizeOf, Decode;
    UnclosedChunkDecodes(Chunk([0x31], [0x41], false), [0x30]);
    assert [0x31] + [CR, LF] + [0x41] + [0x30] + [CR, LF] == [0x31, CR, LF, 0x41, 0x30, CR, LF];
  }

  lemma OneAndZero()
    ensures SizeOf([0x31]) == Some(1) && SizeOf([0x30]) == Some(0)
  {
    assert [0x31][..0] == [] && [0x30][..0] == [];
    assert HexValue([]) == 0;
    SizeLine([0x31], []);
    SizeLine([0x30], []);
  }

  // ---- A sender of the coding ----

  /** A payload sent in the given pieces, sizes in lower-case hex. */
  function Chunks(pieces: seq<Bytes>): seq<Chunk> {
    seq(|pieces|, i requires 0 <= i < |pieces| => Chunk(HexPrint(|pieces[i]|), pieces[i], true))
  }

  function Flatten(pieces: seq<Bytes>): Bytes {
    if pieces == [] then [] else pieces[0] + Flatten(pieces[1..])
  }

  lemma DigitsCrlfFree(digits: Bytes)
    requires AllHex(digits)
    ensures CrlfFree(digits)
  {
    forall k: nat
      ensures !CrlfAt(digits, k)
    {
      assert k < |digits| ==> HexDigit(digits[k]).Some?;
    }
  }

  lemma {:induction false} JoinedChunks(pieces: seq<Bytes>)
    ensures Joined(Chunks(pieces)) == Flatten(pieces)
  {
    if pieces != [] {
      assert Chunks(pieces)[1..] == Chunks(pieces[1..]);
      JoinedChunks(pieces[1..]);
    }
  }

  /** For every split of a payload into non-empty pieces, what is decoded is the
      payload. */
  lemma DecodeSent(pieces: seq<Bytes>, trailer: Bytes)
    requires forall i :: 0 <= i < |pieces| ==> 0 < |pieces[i]| < USIZE_LIMIT
    ensures Decode(EncodeBody(Chunks(pieces), HexPrint(0), trailer)) == Payload(Flatten(pieces))
  {
    hide HexPrint, SizeOf, Decode, EncodeBody, CrlfFree;
    SizeLine(HexPrint(0), []);
    DigitsCrlfFree(HexPrint(0));
    forall i | 0 <= i < |pieces|
      ensures Chunks(pieces)[i].Valid()
    {
      SizeLine(HexPrint(|pieces[i]|), []);
      DigitsCrlfFree(HexPrint(|pieces[i]|));
    }
    DecodeConforming(Chunks(pieces), HexPrint(0), trailer);
    JoinedChunks(pieces);
  }

  // ---- Truncation ----

  lemma NextExtends(p: Bytes, x: Bytes)
    requires Next(p).End? || (Next(p).More? && !Next(Next(p).rest).Stuck?)
    ensures Next(p + x) == if Next(p).End? then End else More(Next(p).data, Next(p).rest + x)
  {
    if Next(p).End? {
      var last, trailer := LastOfNext(p);
      Concat3(last + [CR, LF], trailer, x);
      NextOfLast(last, trailer + x);
    } else {
      var rest := Next(p).rest;
      assert |rest| >= 2;
      hide Next;
      var c := ChunkOfNext(p);
      Concat3(c.Encode(), rest, x);
      NextOfChunk(c, rest + x);
    }
  }

  /** A body once decoded stays decoded: bytes behind it change nothing. */
  lemma {:induction false} DecodeExtends(p: Bytes, x: Bytes)
    requires Decode(p).Payload?
    ensures Decode(p + x) == Decode(p)
    decreases |p|
  {
    hide Next;
    NextExtends(p, x);
    if Next(p).More? {
      DecodeExtends(Next(p).rest, x);
    }
  }

  /** On every prefix of a decodable body the decoder fails or returns the whole
      payload: a truncated response never yields a shortened one. */
  lemma TruncationNeverShortens(data: Bytes, n: nat)
    requires Decode(data).Payload? && n <= |data|
    ensures Decode(data[..n]) == Malformed || Decode(data[..n]) == Decode(data)
  {
    hide Decode;
    if Decode(data[..n]).Payload? {
      DecodeExtends(data[..n], data[n..]);
      assert data[..n] + data[n..] == data;
    }
  }
}
