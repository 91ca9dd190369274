/** Lexical containment of the paths the panel may name. */
module Paths {
  import opened Basics

  datatype Component = RootDir | CurDir | ParentDir | Normal(name: string)

  /** One piece between slashes. A dot counts only at the very start. */
  function Classify(piece: string, first: bool): seq<Component> {
    if piece == "" then []
    else if piece == "." then if first then [CurDir] else []
    else if piece == ".." then [ParentDir]
    else [Normal(piece)]
  }

  function Pieces(s: string, first: bool): seq<Component>
    decreases |s|
  {
    var i := IndexOf(s, '/');
    Classify(s[..i], first) + if i == |s| then [] else Pieces(s[i + 1..], false)
  }

  predicate IsAbsolute(s: string) {
    s != "" && s[0] == '/'
  }

  function Components(s: string): seq<Component> {
    (if IsAbsolute(s) then [RootDir] else []) + Pieces(s, true)
  }

  /** Joining replaces the base by an absolute path and adds a separator where
      one is missing. */
  function Join(base: string, s: string): string {
    if IsAbsolute(s) then s
    else if base == "" || base[|base| - 1] == '/' then base + s
    else base + "/" + s
  }

  /** The directories a path leads through, dots and parents worked out. */
  function Normalise(cs: seq<Component>): seq<string> {
    if cs == [] then []
    else
      var front := Normalise(cs[..|cs| - 1]);
      match cs[|cs| - 1]
      case RootDir => []
      case CurDir => front
      case ParentDir => if front == [] then [] else front[..|front| - 1]
      case Normal(name) => front + [name]
  }

  function Where(s: string): seq<string> {
    Normalise(Components(s))
  }

  predicate Harmless(c: Component) {
    c.Normal? || c.CurDir?
  }

  function ResolvePath(root: string, server: string, rel: string): Option<string> {
    if exists i :: 0 <= i < |Components(rel)| && !Harmless(Components(rel)[i]) then None
    else Some(Join(Join(root, server), rel))
  }

  predicate IsSafeRelativePath(s: string) {
    s != "" && forall i :: 0 <= i < |Components(s)| ==>
      Components(s)[i] != ParentDir && Components(s)[i] != RootDir
  }

  function BackupPath(root: string, server: string, name: string): Option<string> {
    var cs := Components(name);
    if |cs| == 1 && cs[0].Normal? then Some(Join(Join(root, server), name)) else None
  }

  // ---- Components of joined paths ----

  lemma SplitPieces(a: string, b: string, first: bool)
    requires '/' !in a
    ensures Pieces(a + "/" + b, first) == Classify(a, first) + Pieces(b, false)
  {
    hide IndexOf, Classify;
    var s := a + "/" + b;
    IndexOfAppend(a, "/" + b, '/');
    assert s == a + ("/" + b);
    assert s[..|a|] == a && s[|a| + 1..] == b;
  }

  lemma LonePiece(s: string, first: bool)
    requires '/' !in s
    ensures Pieces(s, first) == Classify(s, first)
  {
    hide Classify;
    assert s[..|s|] == s;
    assert Classify(s, first) + [] == Classify(s, first);
  }

  lemma SlashSplits(s: string, i: nat)
    requires i == IndexOf(s, '/') < |s|
    ensures s == s[..i] + "/" + s[i + 1..] && '/' !in s[..i]
  {
    hide IndexOf;
    Split3(s, i, i + 1);
    assert s[i..i + 1] == "/";
  }

  lemma {:induction false} PiecesAppend(a: string, b: string, first: bool)
    ensures Pieces(a + "/" + b, first) == Pieces(a, first) + Pieces(b, false)
    decreases |a|
  {
    hide Pieces, Classify, IndexOf;
    var i := IndexOf(a, '/');
    if i == |a| {
      SplitPieces(a, b, first);
      LonePiece(a, first);
    } else {
      var head, tail := a[..i], a[i + 1..];
      SlashSplits(a, i);
      PiecesAppend(tail, b, false);
      SplitPieces(head, tail, first);
      SplitPieces(head, tail + "/" + b, first);
      assert a + "/" + b == head + "/" + (tail + "/" + b);
      Concat3(Classify(head, first), Pieces(tail, false), Pieces(b, false));
    }
  }

  lemma PiecesEmpty(first: bool)
    ensures Pieces("", first) == []
  {
  }

  /** The components of a join are those of the base, then those of what is
      joined, as they count away from the start. */
  lemma JoinComponents(base: string, s: string)
    requires base != "" && !IsAbsolute(s)
    ensures Components(Join(base, s)) == Components(base) + Pieces(s, false)
  {
    hide Pieces;
    var root := if IsAbsolute(base) then [RootDir] else [];
    if base[|base| - 1] == '/' {
      var b := base[..|base| - 1];
      assert base == b + "/" + "" && base + s == b + "/" + s;
      PiecesAppend(b, "", true);
      PiecesAppend(b, s, true);
      PiecesEmpty(false);
      assert Pieces(b, true) + [] == Pieces(b, true);
    } else {
      PiecesAppend(base, s, true);
    }
    Concat3(root, Pieces(base, true), Pieces(s, false));
  }

  // ---- Where harmless components lead ----

  function Names(cs: seq<Component>): seq<string> {
    if cs == [] then []
    else if cs[|cs| - 1].Normal? then Names(cs[..|cs| - 1]) + [cs[|cs| - 1].name]
    else Names(cs[..|cs| - 1])
  }

  lemma {:induction false} NormaliseHarmless(a: seq<Component>, b: seq<Component>)
    requires forall i :: 0 <= i < |b| ==> Harmless(b[i])
    ensures Normalise(a + b) == Normalise(a) + Names(b)
    decreases |b|
  {
    if b == [] {
      assert a + b == a;
    } else {
      var front := b[..|b| - 1];
      NormaliseHarmless(a, front);
      assert (a + b)[..|a + b| - 1] == a + front;
    }
  }

  lemma ClassifyAway(piece: string, rest: seq<Component>)
    ensures || Classify(piece, true) + rest == Classify(piece, false) + rest
            || Classify(piece, true) + rest == [CurDir] + (Classify(piece, false) + rest)
  {
    if piece == "." {
      assert [] + rest == rest;
    }
  }

  /** Away from the start a leading dot disappears and nothing else changes. */
  lemma PiecesAway(s: string)
    ensures Pieces(s, true) == Pieces(s, false) || Pieces(s, true) == [CurDir] + Pieces(s, false)
  {
    hide Pieces, Classify, IndexOf;
    var i := IndexOf(s, '/');
    if i == |s| {
      LonePiece(s, true);
      LonePiece(s, false);
      ClassifyAway(s, []);
      assert Classify(s, true) + [] == Classify(s, true) && Classify(s, false) + [] == Classify(s, false);
    } else {
      SlashSplits(s, i);
      SplitPieces(s[..i], s[i + 1..], true);
      SplitPieces(s[..i], s[i + 1..], false);
      ClassifyAway(s[..i], Pieces(s[i + 1..], false));
    }
  }

  lemma RootComponent(s: string)
    ensures IsAbsolute(s) ==> Components(s) != [] && Components(s)[0] == RootDir
    ensures !IsAbsolute(s) ==> Components(s) == Pieces(s, true)
  {
    hide Pieces;
  }

  lemma RelativePieces(s: string)
    requires forall i :: 0 <= i < |Components(s)| ==> Harmless(Components(s)[i])
    ensures !IsAbsolute(s)
    ensures forall i :: 0 <= i < |Pieces(s, false)| ==> Harmless(Pieces(s, false)[i])
    ensures Names(Pieces(s, false)) == Names(Components(s))
  {
    hide Pieces, Names, Components;
    RootComponent(s);
    PiecesAway(s);
    var cs, ps := Components(s), Pieces(s, false);
    if cs == [CurDir] + ps {
      assert forall i :: 0 <= i < |ps| ==> cs[i + 1] == ps[i];
      NamesAfterDot(ps);
    }
  }

  lemma {:induction false} NamesAfterDot(cs: seq<Component>)
    ensures Names([CurDir] + cs) == Names(cs)
    decreases |cs|
  {
    var all := [CurDir] + cs;
    if cs == [] {
      assert all[..0] == [];
    } else {
      assert all[..|all| - 1] == [CurDir] + cs[..|cs| - 1];
      NamesAfterDot(cs[..|cs| - 1]);
    }
  }

  // ---- Containment ----

  /** A server id that is one directory name. */
  predicate IsDirectoryName(s: string) {
    s != "" && s != "." && s != ".." && '/' !in s
  }

  lemma ServerDirectory(root: string, server: string)
    requires IsDirectoryName(server)
    ensures Where(Join(root, server)) == Where(root) + [server]
    ensures Join(root, server) != ""
  {
    PiecesEmpty(true);
    assert Where("") == [];
    hide Pieces, Normalise;
    LonePiece(server, true);
    LonePiece(server, false);
    if root == "" {
      assert root + server == server;
      assert Components(server) == [] + [Normal(server)];
      NormaliseSnoc([], Normal(server));
    } else {
      JoinComponents(root, server);
      NormaliseSnoc(Components(root), Normal(server));
    }
  }

  lemma NormaliseSnoc(cs: seq<Component>, c: Component)
    ensures Normalise(cs + [c]) == match c
              case RootDir => []
              case CurDir => Normalise(cs)
              case ParentDir => if Normalise(cs) == [] then [] else Normalise(cs)[..|Normalise(cs)| - 1]
              case Normal(name) => Normalise(cs) + [name]
  {
    assert (cs + [c])[..|cs + [c]| - 1] == cs;
  }

  /** Joining a harmless path leads to its names below the base. */
  lemma JoinHarmless(base: string, rel: string)
    requires base != "" && forall i :: 0 <= i < |Components(rel)| ==> Harmless(Components(rel)[i])
    ensures Where(Join(base, rel)) == Where(base) + Names(Components(rel))
  {
    RelativePieces(rel);
    hide Pieces, Components, Harmless;
    JoinComponents(base, rel);
    NormaliseHarmless(Components(base), Pieces(rel, false));
  }

  /** Every accepted path leads to the server's directory or below it. */
  lemma ResolveIsContained(root: string, server: string, rel: string)
    requires IsDirectoryName(server) && ResolvePath(root, server, rel).Some?
    ensures Where(ResolvePath(root, server, rel).value) == Where(root) + [server] + Names(Components(rel))
  {
    ServerDirectory(root, server);
    JoinHarmless(Join(root, server), rel);
  }

  ghost predicate Bare(cs: seq<Component>) {
    forall i :: 0 <= i < |cs| && cs[i].Normal? ==> '/' !in cs[i].name
  }

  lemma {:induction false} PiecesAreBare(s: string, first: bool)
    ensures Bare(Pieces(s, first))
    decreases |s|
  {
    hide IndexOf;
    var i := IndexOf(s, '/');
    if i < |s| {
      PiecesAreBare(s[i + 1..], false);
    }
  }

  lemma {:induction false} NormaliseIsBare(cs: seq<Component>)
    requires Bare(cs)
    ensures forall i :: 0 <= i < |Normalise(cs)| ==> '/' !in Normalise(cs)[i]
  {
    if cs != [] {
      NormaliseIsBare(cs[..|cs| - 1]);
    }
  }

  /** No directory a path leads through has a slash in its name. */
  lemma WhereIsBare(s: string)
    ensures forall i :: 0 <= i < |Where(s)| ==> '/' !in Where(s)[i]
  {
    PiecesAreBare(s, true);
    hide Pieces, Normalise;
    NormaliseIsBare(Components(s));
  }

  /** The server id is not checked by the code. Containment in a directory of that
      name holds for exactly the ids that are directory names. */
  lemma ServerIdConfinesExactly(root: string, server: string)
    ensures IsDirectoryName(server) <==>
            forall rel :: ResolvePath(root, server, rel).Some? ==>
              Where(root) + [server] <= Where(ResolvePath(root, server, rel).value)
  {
    if IsDirectoryName(server) {
      forall rel | ResolvePath(root, server, rel).Some?
        ensures Where(root) + [server] <= Where(ResolvePath(root, server, rel).value)
      {
        ResolveIsContained(root, server, rel);
      }
    } else {
      EmptyPath(root, server);
      hide ResolvePath, Where, Join;
      var p := ResolvePath(root, server, "").value;
      if '/' in server {
        WhereIsBare(p);
        assert (Where(root) + [server])[|Where(root)|] == server;
      } else {
        OddServerEscapes(root, server);
      }
    }
  }

  /** An absolute id leads to its own place, whatever the root is. */
  lemma AbsoluteServerReplacesRoot(root: string, server: string, rel: string)
    requires IsAbsolute(server) && ResolvePath(root, server, rel).Some?
    ensures Where(ResolvePath(root, server, rel).value) == Where(server) + Names(Components(rel))
  {
    hide Components;
    JoinHarmless(server, rel);
  }

  // ---- Staying below the root ----

  /** Accepted paths stay below the root exactly when the server's own directory
      does. */
  lemma RootConfinesExactly(root: string, server: string)
    ensures Where(root) <= Where(Join(root, server)) <==>
            forall rel :: ResolvePath(root, server, rel).Some? ==>
              Where(root) <= Where(ResolvePath(root, server, rel).value)
  {
    var dir := Join(root, server);
    EmptyPath(root, server);
    JoinNothing(dir);
    if Where(root) <= Where(dir) {
      forall rel | ResolvePath(root, server, rel).Some?
        ensures Where(root) <= Where(ResolvePath(root, server, rel).value)
      {
        if dir != "" {
          hide Components, Join;
          JoinHarmless(dir, rel);
        } else {
          EmptyJoins(root, server);
        }
      }
    }
  }

  lemma EmptyJoins(root: string, server: string)
    requires Join(root, server) == ""
    ensures Where(root) == []
  {
    PiecesEmpty(true);
    assert root == "";
  }

  /** Somewhere on the way more parents than names have come. */
  predicate Climbs(cs: seq<Component>) {
    cs != [] &&
    (Climbs(cs[..|cs| - 1]) || (cs[|cs| - 1].ParentDir? && Normalise(cs[..|cs| - 1]) == []))
  }

  predicate Relative(cs: seq<Component>) {
    forall i :: 0 <= i < |cs| ==> cs[i] != RootDir
  }

  lemma {:induction false} NormaliseBelow(a: seq<Component>, b: seq<Component>)
    requires Relative(b) && !Climbs(b)
    ensures Normalise(a + b) == Normalise(a) + Normalise(b)
    decreases |b|
  {
    if b == [] {
      assert a + b == a;
    } else {
      var front := b[..|b| - 1];
      NormaliseBelow(a, front);
      assert (a + b)[..|a + b| - 1] == a + front;
    }
  }

  /** A directory climbed out of is not come back to, if its name is not used. */
  lemma {:induction false} ClimbsAway(name: string, b: seq<Component>)
    requires Relative(b) && forall i :: 0 <= i < |b| ==> b[i] != Normal(name)
    ensures if Climbs(b) then name !in Normalise([Normal(name)] + b)
            else Normalise([Normal(name)] + b) == [name] + Normalise(b)
    decreases |b|
  {
    var all := [Normal(name)] + b;
    if b == [] {
      assert all[..0] == [];
      assert Normalise(all) == Normalise([]) + [name];
    } else {
      ClimbsAway(name, b[..|b| - 1]);
      assert all[..|all| - 1] == [Normal(name)] + b[..|b| - 1];
    }
  }

  lemma {:induction false} PiecesAreRelative(s: string, first: bool)
    ensures Relative(Pieces(s, first))
    ensures forall i :: 0 <= i < |Pieces(s, first)| && Pieces(s, first)[i].Normal? ==> |Pieces(s, first)[i].name| <= |s|
    decreases |s|
  {
    hide IndexOf;
    var i := IndexOf(s, '/');
    if i < |s| {
      PiecesAreRelative(s[i + 1..], false);
    }
  }

  /** A name too long to occur in `s`. */
  function LongName(s: string): (name: string)
    ensures |name| > |s| + 2 && '/' !in name
  {
    seq(|s| + 3, i => 'x')
  }

  lemma LongNameIsRoot(s: string)
    ensures Components(LongName(s)) == [Normal(LongName(s))] && Where(LongName(s)) == [LongName(s)]
  {
    var name := LongName(s);
    hide LongName;
    LonePiece(name, true);
    RootComponent(name);
    assert name[0] != '/';
    NormaliseSnoc([], Normal(name));
    assert [] + [Normal(name)] == [Normal(name)] && Normalise([]) == [];
  }

  lemma ClimbingEscapes(server: string)
    requires IsAbsolute(server) || Climbs(Pieces(server, false))
    ensures !(Where(LongName(server)) <= Where(Join(LongName(server), server)))
  {
    var root := LongName(server);
    LongNameIsRoot(server);
    hide LongName, Pieces, Normalise;
    if IsAbsolute(server) {
      PiecesAreRelative(server, true);
      ShortNames(Components(server), |server|);
    } else {
      JoinComponents(root, server);
      PiecesAreRelative(server, false);
      ClimbsAway(root, Pieces(server, false));
    }
    assert root in Where(root);
  }

  lemma {:induction false} ShortNames(cs: seq<Component>, n: nat)
    requires forall i :: 0 <= i < |cs| && cs[i].Normal? ==> |cs[i].name| <= n
    ensures forall i :: 0 <= i < |Normalise(cs)| ==> |Normalise(cs)[i]| <= n
  {
    if cs != [] {
      ShortNames(cs[..|cs| - 1], n);
    }
  }

  lemma StayingStays(root: string, server: string)
    requires !IsAbsolute(server) && !Climbs(Pieces(server, false))
    ensures Where(root) <= Where(Join(root, server))
  {
    if root == "" {
      PiecesEmpty(true);
    } else {
      hide Pieces, Normalise, Climbs;
      PiecesAreRelative(server, false);
      JoinComponents(root, server);
      NormaliseBelow(Components(root), Pieces(server, false));
    }
  }

  /** Whatever the root is, all accepted paths stay below it exactly when the
      server id is relative and never climbs. */
  lemma EveryRootConfinesExactly(server: string)
    ensures !IsAbsolute(server) && !Climbs(Pieces(server, false)) <==>
            forall root, rel :: ResolvePath(root, server, rel).Some? ==>
              Where(root) <= Where(ResolvePath(root, server, rel).value)
  {
    hide Pieces, Where, Join, Climbs;
    if !IsAbsolute(server) && !Climbs(Pieces(server, false)) {
      forall root, rel | ResolvePath(root, server, rel).Some?
        ensures Where(root) <= Where(ResolvePath(root, server, rel).value)
      {
        StayingStays(root, server);
        RootConfinesExactly(root, server);
      }
    } else {
      ClimbingEscapes(server);
      RootConfinesExactly(LongName(server), server);
    }
  }

  lemma OddPieces(server: string)
    requires server in {"", ".", ".."}
    ensures !IsAbsolute(server) && Pieces(server, false) == if server == ".." then [ParentDir] else []
    ensures Where(server) == []
  {
    LonePiece(server, false);
    LonePiece(server, true);
    hide Pieces;
    assert Normalise([]) == [];
    NormaliseSnoc([], CurDir);
    NormaliseSnoc([], ParentDir);
    hide Normalise;
    assert [] + [CurDir] == [CurDir] && [] + [ParentDir] == [ParentDir];
  }

  lemma EmptyPath(root: string, server: string)
    ensures Components("") == [] && Names([]) == []
    ensures ResolvePath(root, server, "") == Some(Join(Join(root, server), ""))
  {
    PiecesEmpty(true);
  }

  lemma JoinNothing(base: string)
    ensures Where(Join(base, "")) == Where(base)
  {
    EmptyPath(base, "");
    hide Components, Normalise, Names;
    if base != "" {
      JoinHarmless(base, "");
    } else {
      assert base + "" == base;
    }
  }

  lemma OddServerEscapes(root: string, server: string)
    requires server in {"", ".", ".."}
    ensures ResolvePath(root, server, "").Some?
    ensures |Where(ResolvePath(root, server, "").value)| <= |Where(root)|
  {
    hide Pieces, Components, Normalise, Names, ResolvePath;
    OddPieces(server);
    EmptyPath(root, server);
    JoinNothing(Join(root, server));
    if root == "" {
      assert root + server == server;
    } else {
      JoinComponents(root, server);
      hide Join;
      if server == ".." {
        NormaliseSnoc(Components(root), ParentDir);
      } else {
        assert Components(root) + [] == Components(root);
      }
    }
  }

  // ---- Which paths are accepted, written out ----

  /** Between two slashes, or an end and a slash, there is "..". */
  ghost predicate HasParent(s: string) {
    exists a: string, b: string :: ParentAt(s, a, b)
  }

  ghost predicate ParentAt(s: string, a: string, b: string) {
    s == a + ".." + b && (a == "" || a[|a| - 1] == '/') && (b == "" || b[0] == '/')
  }

  lemma SlashBeside(s: string, a: string, b: string)
    requires ParentAt(s, a, b)
    ensures a != "" || b != "" ==> '/' in s
  {
    if a != "" {
      assert s[|a| - 1] == '/';
    } else if b != "" {
      assert s[2] == '/';
    }
  }

  lemma ClassifyHarmless(piece: string, first: bool)
    ensures (forall i :: 0 <= i < |Classify(piece, first)| ==> Harmless(Classify(piece, first)[i])) <==> piece != ".."
  {
    if piece == ".." {
      assert Classify(piece, first)[0] == ParentDir;
    }
  }

  lemma LoneParent(s: string)
    requires '/' !in s
    ensures HasParent(s) <==> s == ".."
  {
    if s == ".." {
      assert ParentAt(s, "", "");
    }
    if a: string, b: string :| ParentAt(s, a, b) {
      SlashBeside(s, a, b);
    }
  }

  lemma ParentSplits(head: string, tail: string)
    requires '/' !in head
    ensures HasParent(head + "/" + tail) <==> head == ".." || HasParent(tail)
  {
    var s := head + "/" + tail;
    if head == ".." {
      assert ParentAt(s, "", "/" + tail);
    }
    if a: string, b: string :| ParentAt(tail, a, b) {
      assert s == head + "/" + a + ".." + b;
      assert ParentAt(s, head + "/" + a, b);
    }
    if a: string, b: string :| ParentAt(s, a, b) {
      ParentBehind(head, tail, a, b);
    }
  }

  lemma ParentBehind(head: string, tail: string, a: string, b: string)
    requires '/' !in head && ParentAt(head + "/" + tail, a, b)
    ensures head == ".." || HasParent(tail)
  {
    var s, n := head + "/" + tail, |head|;
    assert s[n] == '/' && forall k :: 0 <= k < n ==> s[k] == head[k];
    if a == "" {
      assert s[0] == '.' && s[1] == '.' && (b == "" ==> |s| == 2) && (b != "" ==> s[2] == '/');
      assert n == 2;
      assert head == "..";
    } else {
      assert s[|a| - 1] == '/';
      assert |a| >= n + 1;
      var rest := a[n + 1..];
      assert tail == s[n + 1..] == rest + ".." + b;
      assert ParentAt(tail, rest, b);
    }
  }

  lemma {:induction false} ParentPieces(s: string, first: bool)
    ensures (forall i :: 0 <= i < |Pieces(s, first)| ==> Harmless(Pieces(s, first)[i])) <==> !HasParent(s)
    decreases |s|
  {
    hide IndexOf, HasParent, Pieces, Classify, Harmless;
    var i := IndexOf(s, '/');
    if i == |s| {
      LonePiece(s, first);
      LoneParent(s);
      ClassifyHarmless(s, first);
    } else {
      var head, tail := s[..i], s[i + 1..];
      SlashSplits(s, i);
      SplitPieces(head, tail, first);
      ParentPieces(tail, false);
      ParentSplits(head, tail);
      ClassifyHarmless(head, first);
      HarmlessBoth(Classify(head, first), Pieces(tail, false));
    }
  }

  lemma HarmlessBoth(a: seq<Component>, b: seq<Component>)
    ensures (forall i :: 0 <= i < |a + b| ==> Harmless((a + b)[i])) <==>
            (forall i :: 0 <= i < |a| ==> Harmless(a[i])) && (forall i :: 0 <= i < |b| ==> Harmless(b[i]))
  {
    var all := a + b;
    assert forall i :: 0 <= i < |a| ==> all[i] == a[i];
    assert forall i :: 0 <= i < |b| ==> all[|a| + i] == b[i];
  }

  /** A path is accepted exactly if it does not begin with a slash and has no
      ".." between slashes. */
  lemma AcceptedExactly(root: string, server: string, rel: string)
    ensures ResolvePath(root, server, rel).Some? <==> !(rel != "" && rel[0] == '/') && !HasParent(rel)
  {
    ParentPieces(rel, true);
    RootComponent(rel);
    hide Pieces, HasParent;
    assert IsAbsolute(rel) ==> !Harmless(Components(rel)[0]);
    hide Components;
  }

  /** The two checks agree on everything but the empty path. */
  lemma ChecksAgree(root: string, server: string, rel: string)
    ensures IsSafeRelativePath(rel) <==> rel != "" && ResolvePath(root, server, rel).Some?
  {
    hide Components;
    var cs := Components(rel);
    assert forall c: Component :: Harmless(c) <==> c != ParentDir && c != RootDir;
  }

  /** An accepted backup name passes both checks and names a file exactly one
      level below the server's backup directory. */
  lemma BackupIsOneLevelDown(root: string, server: string, name: string)
    requires IsDirectoryName(server) && BackupPath(root, server, name).Some?
    ensures Where(BackupPath(root, server, name).value) == Where(root) + [server] + [Components(name)[0].name]
    ensures IsSafeRelativePath(name) && ResolvePath(root, server, name) == BackupPath(root, server, name)
  {
    EmptyPath(root, server);
    hide Components, Normalise, Join;
    var cs := Components(name);
    OneName(cs);
    ServerDirectory(root, server);
    JoinHarmless(Join(root, server), name);
  }

  lemma OneName(cs: seq<Component>)
    requires |cs| == 1 && cs[0].Normal?
    ensures Names(cs) == [cs[0].name]
  {
    assert cs[..0] == [];
    assert Names([]) == [];
  }

  /** Any run of "/" and "/." pieces. */
  predicate IsTrail(t: string) {
    || t == ""
    || (t[0] == '/' && (IsTrail(t[1..]) || (|t| > 1 && t[1] == '.' && IsTrail(t[2..]))))
  }

  lemma LoneTrail(t: string)
    requires '/' !in t
    ensures IsTrail("/" + t) <==> t in {"", "."}
  {
    var s := "/" + t;
    assert s[1..] == t;
    if t != "" {
      assert s[1] == t[0] && s[2..] == t[1..];
      assert |t| == 1 ==> t == [t[0]];
    }
  }

  /** Those, and only those, add no components. */
  lemma {:induction false} TrailAddsNothing(t: string)
    ensures IsTrail("/" + t) <==> Pieces(t, false) == []
    decreases |t|
  {
    hide IndexOf, IsTrail, Pieces;
    var i := IndexOf(t, '/');
    if i == |t| {
      LonePiece(t, false);
      LoneTrail(t);
    } else {
      SlashSplits(t, i);
      SplitPieces(t[..i], t[i + 1..], false);
      TrailAddsNothing(t[i + 1..]);
      assert t[i..] == "/" + t[i + 1..];
      TrailHead(t, i);
    }
  }

  lemma TrailHead(t: string, i: nat)
    requires i < |t| && t[i] == '/' && '/' !in t[..i]
    ensures IsTrail("/" + t) <==> t[..i] in {"", "."} && IsTrail(t[i..])
  {
    var s := "/" + t;
    assert s[1..] == t;
    if i == 0 {
      assert t[0..] == t && t[..0] == "";
      assert s[1] == '/';
    } else {
      assert t[..i][0] == t[0];
      assert s[1] == t[0] && s[2..] == t[1..];
      if i > 1 {
        assert t[..i][1] == t[1];
      } else {
        assert t[..i] == [t[0]];
      }
    }
  }

  /** Exactly which backup names are accepted: a directory name followed by any
      run of slashes and dots that add nothing. */
  lemma BackupNameExactly(root: string, server: string, name: string)
    ensures BackupPath(root, server, name).Some? <==>
            exists dir: string, trail: string :: IsDirectoryName(dir) && IsTrail(trail) && name == dir + trail
  {
    if dir: string, trail: string :| IsDirectoryName(dir) && IsTrail(trail) && name == dir + trail {
      TrailIsAccepted(dir, trail);
    }
    if BackupPath(root, server, name).Some? {
      var dir, trail := AcceptedSplits(name);
    }
  }

  lemma TrailIsAccepted(dir: string, trail: string)
    requires IsDirectoryName(dir) && IsTrail(trail)
    ensures Components(dir + trail) == [Normal(dir)]
  {
    hide Pieces;
    RootComponent(dir + trail);
    assert (dir + trail)[0] == dir[0];
    if trail == "" {
      assert dir + trail == dir;
      LonePiece(dir, true);
    } else {
      var t := trail[1..];
      assert trail == "/" + t;
      assert dir + trail == dir + "/" + t;
      hide IsTrail;
      TrailAddsNothing(t);
      SplitPieces(dir, t, true);
    }
  }

  lemma AcceptedSplits(name: string) returns (dir: string, trail: string)
    requires |Components(name)| == 1 && Components(name)[0].Normal?
    ensures IsDirectoryName(dir) && IsTrail(trail) && name == dir + trail
  {
    hide Pieces, IndexOf;
    RootComponent(name);
    var i := IndexOf(name, '/');
    dir, trail := name[..i], name[i..];
    if i == |name| {
      LonePiece(name, true);
      assert dir == name;
    } else {
      var t := name[i + 1..];
      SlashSplits(name, i);
      SplitPieces(dir, t, true);
      assert i == 0 ==> IsAbsolute(name);
      assert trail == "/" + t;
      hide IsTrail;
      TrailAddsNothing(t);
    }
  }

  /** So a name documented as free of separators may carry some. */
  lemma TrailingSlashIsAccepted(root: string, server: string)
    ensures BackupPath(root, server, "a//./").Some?
  {
    assert "/./"[1..] == "./" && "//./"[1..] == "/./" && "/./"[2..] == "/" && "/"[1..] == "";
    assert IsTrail("/");
    assert IsTrail("/./");
    assert IsTrail("//./");
    TrailIsAccepted("a", "//./");
    assert "a" + "//./" == "a//./";
  }

  // ---- Restoring a backup ----

  /** An archive entry, and whether unpacking it works. */
  datatype Entry = Entry(path: string, unpacks: bool)

  /** The places of the safe entries, in order. */
  ghost function Places(dest: string, entries: seq<Entry>): seq<string> {
    if entries == [] then []
    else
      var front, e := Places(dest, entries[..|entries| - 1]), entries[|entries| - 1];
      if e.path != "" && e.path[0] != '/' && !HasParent(e.path) then front + [Join(dest, e.path)] else front
  }

  /** Every safe entry among them unpacks. */
  ghost predicate AllUnpack(entries: seq<Entry>) {
    forall i :: 0 <= i < |entries| && IsSafeRelativePath(entries[i].path) ==> entries[i].unpacks
  }

  lemma SafeExactly(path: string)
    ensures IsSafeRelativePath(path) <==> path != "" && path[0] != '/' && !HasParent(path)
  {
    hide IsSafeRelativePath, ResolvePath, HasParent;
    ChecksAgree("", "", path);
    AcceptedExactly("", "", path);
  }

  /** Unpacks into `dest`, skipping what would leave it: everything safe, or
      everything safe in front of the first that fails. Everything written lies
      at or below `dest`. */
  method RestoreBackup(dest: string, entries: seq<Entry>) returns (written: seq<string>, ok: bool)
    requires dest != ""
    ensures ok <==> AllUnpack(entries)
    ensures ok ==> written == Places(dest, entries)
    ensures !ok ==>
              exists k :: 0 <= k < |entries| && AllUnpack(entries[..k]) && IsSafeRelativePath(entries[k].path) &&
                          !entries[k].unpacks && written == Places(dest, entries[..k])
    ensures forall i :: 0 <= i < |written| ==> Where(dest) <= Where(written[i])
  {
    hide IsSafeRelativePath, Where, Join, HasParent;
    written, ok := [], true;
    var i := 0;
    while i < |entries|
      invariant 0 <= i <= |entries|
      invariant AllUnpack(entries[..i]) && written == Places(dest, entries[..i])
      invariant forall k :: 0 <= k < |written| ==> Where(dest) <= Where(written[k])
    {
      var e := entries[i];
      assert entries[..i + 1][..i] == entries[..i];
      SafeExactly(e.path);
      if IsSafeRelativePath(e.path) {
        if !e.unpacks {
          return written, false;
        }
        SafeIsContained(dest, e.path);
        written := written + [Join(dest, e.path)];
      }
      i := i + 1;
    }
    assert entries[..i] == entries;
    ok := true;
  }

  lemma SafeIsContained(dest: string, path: string)
    requires dest != "" && IsSafeRelativePath(path)
    ensures Where(dest) <= Where(Join(dest, path))
  {
    hide Components, Where, Join;
    JoinHarmless(dest, path);
  }
}
