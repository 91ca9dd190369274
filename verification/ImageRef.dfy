/** Image references and the query that pulls them. Both work on bytes. */
module ImageRef {
  import opened Basics

  const SLASH: byte := 47
  const COLON: byte := 58
  const AT: byte := 64
  const AMPERSAND: byte := 38
  const PERCENT: byte := 37

  function Ascii(s: string): Bytes
    requires forall i :: 0 <= i < |s| ==> s[i] as int < 128
  {
    seq(|s|, i requires 0 <= i < |s| => s[i] as int)
  }

  const LATEST := Ascii("latest")

  datatype Ref = Ref(name: Bytes, tag: Bytes)

  /** The position of the last `b` in `s`, -1 when there is none. */
  function LastIndexOf(s: Bytes, b: byte): (i: int)
    ensures -1 <= i < |s|
    ensures i >= 0 ==> s[i] == b
    ensures forall k :: i < k < |s| ==> s[k] != b
  {
    if s == [] then -1 else if s[|s| - 1] == b then |s| - 1 else LastIndexOf(s[..|s| - 1], b)
  }

  /** The part behind the last slash. */
  function LastSegment(image: Bytes): Bytes {
    image[LastIndexOf(image, SLASH) + 1..]
  }

  /** Repository and tag. Only a colon in the last segment marks a tag; a digest
      reference has none, and without either the tag is "latest". */
  function SplitImageRef(image: Bytes): Ref {
    var start := LastIndexOf(image, SLASH) + 1;
    var segment := image[start..];
    if AT in segment then Ref(image, [])
    else
      var rel := LastIndexOf(segment, COLON);
      if rel >= 0 && image[start + rel + 1..] != [] then Ref(image[..start + rel], image[start + rel + 1..])
      else Ref(image, LATEST)
  }

  predicate PlainTag(tag: Bytes) {
    tag != [] && SLASH !in tag && COLON !in tag && AT !in tag
  }

  lemma LastIndexIs(s: Bytes, b: byte, i: int)
    requires -1 <= i < |s| && (i >= 0 ==> s[i] == b)
    requires forall k :: i < k < |s| ==> s[k] != b
    ensures LastIndexOf(s, b) == i
  {
  }

  lemma LastIndexAppend(a: Bytes, b: Bytes, x: byte)
    requires x !in b
    ensures LastIndexOf(a + b, x) == LastIndexOf(a, x)
  {
    var i := LastIndexOf(a, x);
    assert forall k :: |a| <= k < |a + b| ==> (a + b)[k] == b[k - |a|];
    LastIndexIs(a + b, x, i);
  }

  lemma LastColon(segment: Bytes, tag: Bytes)
    requires COLON !in tag
    ensures LastIndexOf(segment + ([COLON] + tag), COLON) == |segment|
  {
    var head := segment + [COLON];
    Concat3(segment, [COLON], tag);
    LastIndexAppend(head, tag, COLON);
    assert head[|head| - 1] == COLON;
  }

  lemma SegmentAppend(name: Bytes, tail: Bytes)
    requires SLASH !in tail
    ensures LastIndexOf(name + tail, SLASH) == LastIndexOf(name, SLASH)
    ensures LastSegment(name + tail) == LastSegment(name) + tail
  {
    LastIndexAppend(name, tail, SLASH);
  }

  lemma SplitAt(name: Bytes, tail: Bytes, tag: Bytes)
    requires tail == [COLON] + tag && tag != []
    requires LastSegment(name + tail) == LastSegment(name) + tail && AT !in LastSegment(name) + tail
    requires LastIndexOf(name + tail, SLASH) == LastIndexOf(name, SLASH)
    requires LastIndexOf(LastSegment(name) + tail, COLON) == |LastSegment(name)|
    ensures SplitImageRef(name + tail) == Ref(name, tag)
  {
    hide LastIndexOf;
    assert (name + tail)[..|name|] == name && (name + tail)[|name| + 1..] == tag;
  }

  /** Joining a name and a plain tag is undone by splitting, whatever colons and
      slashes the name has, as long as its last segment is no digest. */
  lemma SplitJoined(name: Bytes, tag: Bytes)
    requires PlainTag(tag) && AT !in LastSegment(name)
    ensures SplitImageRef(name + ([COLON] + tag)) == Ref(name, tag)
  {
    hide LastIndexOf, LastSegment, SplitImageRef;
    var tail := [COLON] + tag;
    SegmentAppend(name, tail);
    LastColon(LastSegment(name), tag);
    SplitAt(name, tail, tag);
  }

  lemma LatestIsPlain()
    ensures PlainTag(LATEST)
  {
    assert |LATEST| == 6 && LATEST[0] == 108 && LATEST[1] == 97 && LATEST[2] == 116;
    assert LATEST[3] == 101 && LATEST[4] == 115 && LATEST[5] == 116;
  }

  /** What a split means: a digest has no tag; otherwise the tag is plain, and
      the reference was name, colon and tag, or the name alone. */
  lemma SplitMeans(image: Bytes)
    ensures var r := SplitImageRef(image);
            && (r.tag == [] <==> AT in LastSegment(image))
            && (r.tag == [] ==> r.name == image)
            && (r.tag != [] ==> PlainTag(r.tag) && AT !in LastSegment(r.name))
            && (r.tag != [] ==> image == r.name + ([COLON] + r.tag) || (image == r.name && r.tag == LATEST))
  {
    hide LastIndexOf;
    LatestIsPlain();
    var r, segment := SplitImageRef(image), LastSegment(image);
    var rel := LastIndexOf(segment, COLON);
    if r.tag != [] && r.name != image {
      assert r.tag == segment[rel + 1..];
      assert SLASH !in segment;
      assert image == r.name + ([COLON] + r.tag);
      SegmentAppend(r.name, [COLON] + r.tag);
    }
  }

  /** By the bytes: "a:1" has a tag, ... */
  lemma TaggedImage()
    ensures SplitImageRef([97, 58, 49]) == Ref([97], [49])
  {
    hide LastIndexOf;
    var image: Bytes := [97, 58, 49];
    LastIndexIs(image, SLASH, -1);
    LastIndexIs(image, COLON, 1);
    assert image[0..] == image && image[..1] == [97] && image[2..] == [49];
  }

  /** ... "r:5/a" a registry port, which is none, ... */
  lemma RegistryPortIsNoTag()
    ensures SplitImageRef([114, 58, 53, 47, 97]) == Ref([114, 58, 53, 47, 97], Ascii("latest"))
  {
    hide LastIndexOf, Ascii;
    var image: Bytes := [114, 58, 53, 47, 97];
    LastIndexIs(image, SLASH, 3);
    assert image[4..] == [97];
    LastIndexIs([97], COLON, -1);
  }

  /** ... and "a@s:1" a digest. */
  lemma DigestHasNoTag()
    ensures SplitImageRef([97, 64, 115, 58, 49]) == Ref([97, 64, 115, 58, 49], [])
  {
    hide LastIndexOf, Ascii;
    var image: Bytes := [97, 64, 115, 58, 49];
    LastIndexIs(image, SLASH, -1);
    assert image[0..] == image && image[1] == AT;
  }

  /** Splitting is stable: a reference with a tag, written out, splits into the
      same name and tag again. */
  lemma SplitRejoined(image: Bytes)
    requires SplitImageRef(image).tag != []
    ensures var r := SplitImageRef(image); SplitImageRef(r.name + ([COLON] + r.tag)) == r
  {
    hide SplitImageRef, PlainTag, LastSegment;
    SplitMeans(image);
    SplitJoined(SplitImageRef(image).name, SplitImageRef(image).tag);
  }

  // ---- Percent-encoding ----

  predicate Literal(b: byte) {
    || 97 <= b <= 122 || 65 <= b <= 90 || 48 <= b <= 57
    || b == 45 || b == 95 || b == 46 || b == 126 || b == SLASH || b == COLON
  }

  function UpperHex(d: nat): byte
    requires d < 16
  {
    if d < 10 then 48 + d else 55 + d
  }

  function EncodeByte(b: byte): Bytes {
    if Literal(b) then [b] else [PERCENT, UpperHex(b / 16), UpperHex(b % 16)]
  }

  function Encoded(s: Bytes): Bytes {
    if s == [] then [] else Encoded(s[..|s| - 1]) + EncodeByte(s[|s| - 1])
  }

  method EncodeQuery(s: Bytes) returns (out: Bytes)
    ensures out == Encoded(s)
  {
    out := [];
    var i := 0;
    while i < |s|
      invariant 0 <= i <= |s|
      invariant out == Encoded(s[..i])
    {
      assert s[..i + 1][..i] == s[..i];
      var b := s[i];
      if Literal(b) {
        out := out + [b];
      } else {
        out := out + [PERCENT, UpperHex(b / 16), UpperHex(b % 16)];
      }
      i := i + 1;
    }
    assert s[..i] == s;
  }

  /** Percent-decoding (section 2.1 of RFC 3986). */
  function PercentDecode(s: Bytes): Option<Bytes> {
    if s == [] then Some([])
    else if s[0] != PERCENT then
      match PercentDecode(s[1..])
      case None => None
      case Some(rest) => Some([s[0]] + rest)
    else if |s| < 3 || HexDigit(s[1]).None? || HexDigit(s[2]).None? then None
    else
      match PercentDecode(s[3..])
      case None => None
      case Some(rest) => Some([16 * HexDigit(s[1]).value + HexDigit(s[2]).value] + rest)
  }

  lemma HexRoundTrip(d: nat)
    requires d < 16
    ensures HexDigit(UpperHex(d)) == Some(d)
  {
  }

  lemma DecodeByte(b: byte, rest: Bytes)
    requires PercentDecode(rest).Some?
    ensures PercentDecode(EncodeByte(b) + rest) == Some([b] + PercentDecode(rest).value)
  {
    hide HexDigit, UpperHex;
    var s := EncodeByte(b) + rest;
    if Literal(b) {
      assert s[0] == b && s[1..] == rest;
    } else {
      HexRoundTrip(b / 16);
      HexRoundTrip(b % 16);
      assert s[0] == PERCENT && s[1] == UpperHex(b / 16) && s[2] == UpperHex(b % 16) && s[3..] == rest;
      assert 16 * (b / 16) + b % 16 == b;
    }
  }

  lemma {:induction false} DecodeEncodedThen(s: Bytes, rest: Bytes)
    requires PercentDecode(rest).Some?
    ensures PercentDecode(Encoded(s) + rest) == Some(s + PercentDecode(rest).value)
  {
    hide PercentDecode, EncodeByte;
    if s == [] {
      assert Encoded(s) + rest == rest && s + PercentDecode(rest).value == PercentDecode(rest).value;
    } else {
      var front, b := s[..|s| - 1], s[|s| - 1];
      DecodeByte(b, rest);
      DecodeEncodedThen(front, EncodeByte(b) + rest);
      Concat3(Encoded(front), EncodeByte(b), rest);
      Concat3(front, [b], PercentDecode(rest).value);
      assert s == front + [b];
    }
  }

  /** Decoding undoes encoding, for every byte string. */
  lemma DecodeEncoded(s: Bytes)
    ensures PercentDecode(Encoded(s)) == Some(s)
  {
    DecodeEncodedThen(s, []);
    assert Encoded(s) + [] == Encoded(s) && s + [] == s;
  }

  /** Encoding emits only literal bytes and percent signs, so nothing that ends
      or splits a query. */
  lemma {:induction false} EncodedIsSafe(s: Bytes)
    ensures forall b :: b in Encoded(s) ==> Literal(b) || b == PERCENT
  {
    if s != [] {
      EncodedIsSafe(s[..|s| - 1]);
    }
  }

  /** The bytes that go through as they are, written out. */
  lemma LiteralExactly(b: byte)
    ensures var c := b as char;
            Literal(b) <==> 'a' <= c <= 'z' || 'A' <= c <= 'Z' || '0' <= c <= '9' || c in "-_.~/:"
  {
  }

  /** Any other byte becomes a percent sign and its two digits. */
  lemma EscapeExactly(b: byte)
    requires !Literal(b)
    ensures |EncodeByte(b)| == 3 && EncodeByte(b)[0] as char == '%'
    ensures EncodeByte(b)[1] as char == "0123456789ABCDEF"[b / 16]
    ensures EncodeByte(b)[2] as char == "0123456789ABCDEF"[b % 16]
  {
    UpperHexIs(b / 16);
    UpperHexIs(b % 16);
  }

  lemma UpperHexIs(d: nat)
    requires d < 16
    ensures UpperHex(d) as char == "0123456789ABCDEF"[d]
  {
  }

  // ---- The pull request ----

  const FROM_IMAGE := Ascii("/images/create?fromImage=")
  const TAG := Ascii("&tag=")

  /** The path in letters. */
  lemma PathIs(r: Ref)
    ensures PathFor(r) == Ascii("/images/create?fromImage=") + Encoded(r.name) +
                          (if r.tag == [] then [] else Ascii("&tag=") + Encoded(r.tag))
  {
    hide Encoded;
  }

  lemma PathParts(r: Ref)
    ensures r.tag == [] ==> PathFor(r) == FROM_IMAGE + Encoded(r.name)
    ensures r.tag != [] ==> PathFor(r) == FROM_IMAGE + Encoded(r.name) + (TAG + Encoded(r.tag))
  {
    hide Encoded, Ascii;
  }

  /** The path the pull builds. */
  method PullPath(image: Bytes) returns (path: Bytes)
    ensures path == PathFor(SplitImageRef(image))
  {
    var r := SplitImageRef(image);
    PathParts(r);
    hide *;
    var name := EncodeQuery(r.name);
    path := FROM_IMAGE + name;
    if r.tag != [] {
      var tag := EncodeQuery(r.tag);
      path := path + TAG + tag;
      Concat3(FROM_IMAGE + name, TAG, tag);
    }
  }

  function PathFor(r: Ref): Bytes {
    FROM_IMAGE + Encoded(r.name) + if r.tag == [] then [] else TAG + Encoded(r.tag)
  }

  /** How the engine reads it: the first value ends at an ampersand, both values
      are percent-decoded. */
  function ReadPath(path: Bytes): Option<Ref> {
    if !(FROM_IMAGE <= path) then None
    else
      var query := path[|FROM_IMAGE|..];
      var i := IndexOf(query, AMPERSAND);
      var name := PercentDecode(query[..i]);
      if name.None? then None
      else if i == |query| then Some(Ref(name.value, []))
      else if !(TAG <= query[i..]) then None
      else
        match PercentDecode(query[i + |TAG|..])
        case None => None
        case Some(tag) => Some(Ref(name.value, tag))
  }

  lemma NoAmpersand(s: Bytes)
    ensures AMPERSAND !in Encoded(s)
  {
    EncodedIsSafe(s);
  }

  /** For every image reference, the engine reads exactly the name and tag it was
      split into. */
  lemma PullPathRoundTrip(image: Bytes)
    ensures ReadPath(PathFor(SplitImageRef(image))) == Some(SplitImageRef(image))
  {
    hide SplitImageRef, Encoded, PercentDecode, IndexOf;
    var r := SplitImageRef(image);
    var name := Encoded(r.name);
    var tail := if r.tag == [] then [] else TAG + Encoded(r.tag);
    var path := PathFor(r);
    Concat3(FROM_IMAGE, name, tail);
    assert path[|FROM_IMAGE|..] == name + tail;
    NoAmpersand(r.name);
    assert |TAG| == 5 && TAG[0] == AMPERSAND;
    IndexOfAppend(name, tail, AMPERSAND);
    assert (name + tail)[..|name|] == name;
    DecodeEncoded(r.name);
    if r.tag != [] {
      assert (name + tail)[|name|..] == tail;
      assert (name + tail)[|name| + |TAG|..] == Encoded(r.tag);
      DecodeEncoded(r.tag);
    }
  }
}
