/** Recognising the daemon's own containers on a shared host, and rebuilding the
tracking map from them. */
module Managed {
  import opened Basics

  const SERVER_ID_LABEL := "sky-panel.server_id"

  /** A row of the container list, as the daemon reads it. */
  datatype Item = Item(
    id: string,
    names: seq<string>,
    labels: map<string, string>,
    state: string,
    ports: seq<Option<nat>>)

  datatype ManagedContainer = ManagedContainer(serverId: string, containerId: string)

  function TrimSlashes(s: string): string {
    if s != "" && s[0] == '/' then TrimSlashes(s[1..]) else s
  }

  function StripPrefix(s: string, prefix: string): Option<string> {
    if prefix <= s then Some(s[|prefix|..]) else None
  }

  predicate IsHexDigit(c: char) {
    '0' <= c <= '9' || 'a' <= c <= 'f' || 'A' <= c <= 'F'
  }

  /** The shape 8-4-4-4-12 of hex digits and hyphens. */
  predicate LooksLikeServerId(s: string) {
    && |s| == 36
    && forall i :: 0 <= i < 36 ==> if i == 8 || i == 13 || i == 18 || i == 23 then s[i] == '-' else IsHexDigit(s[i])
  }

  function IdFromName(name: string): Option<string> {
    var rest := StripPrefix(TrimSlashes(name), "sky-");
    if rest.Some? && LooksLikeServerId(rest.value) then rest else None
  }

  /** The first name that yields an id. */
  function IdFromNames(names: seq<string>): Option<string> {
    if names == [] then None
    else if IdFromName(names[0]).Some? then IdFromName(names[0])
    else IdFromNames(names[1..])
  }

  /** The server a container belongs to: its label, else a "sky-<uuid>" name. */
  function ServerIdFrom(names: seq<string>, labels: map<string, string>): Option<string> {
    if SERVER_ID_LABEL in labels && labels[SERVER_ID_LABEL] != "" then Some(labels[SERVER_ID_LABEL])
    else IdFromNames(names)
  }

  function Or<T>(a: Option<T>, b: Option<T>): Option<T> {
    if a.Some? then a else b
  }

  /** The copy of that rule inside the container listing. */
  function ListedServerId(it: Item): Option<string> {
    var labelled := SERVER_ID_LABEL in it.labels && it.labels[SERVER_ID_LABEL] != "";
    var fromLabel := if labelled then Some(it.labels[SERVER_ID_LABEL]) else None;
    Or(fromLabel, IdFromNames(it.names))
  }

  function ListManaged(items: seq<Item>): seq<ManagedContainer> {
    if items == [] then []
    else
      var front, it := ListManaged(items[..|items| - 1]), items[|items| - 1];
      match ListedServerId(it)
      case None => front
      case Some(s) => front + [ManagedContainer(s, it.id)]
  }

  /** A container is recognised exactly by a non-empty label or by the first of
      its names that is "sky-" and a server id behind leading slashes. */
  lemma {:induction false} IdFromNamesExactly(names: seq<string>, k: nat)
    requires k <= |names|
    requires forall j :: 0 <= j < k ==> IdFromName(names[j]).None?
    requires k < |names| ==> IdFromName(names[k]).Some?
    ensures IdFromNames(names) == if k < |names| then IdFromName(names[k]) else None
  {
    if k > 0 {
      assert forall j :: 0 <= j < k - 1 ==> names[1..][j] == names[j + 1];
      IdFromNamesExactly(names[1..], k - 1);
    }
  }

  lemma {:induction false} NameRoundTrip(slashes: string, server: string)
    requires forall i :: 0 <= i < |slashes| ==> slashes[i] == '/'
    ensures IdFromName(slashes + "sky-" + server) == if LooksLikeServerId(server) then Some(server) else None
  {
    var name := slashes + "sky-" + server;
    if slashes == "" {
      assert name == "sky-" + server && name[0] == 's';
      assert TrimSlashes(name) == name;
      assert name[4..] == server;
    } else {
      NameRoundTrip(slashes[1..], server);
      assert name[0] == '/' && name[1..] == slashes[1..] + "sky-" + server;
    }
  }

  // ---- What a server id is, written out ----

  ghost predicate IsHex(s: string) {
    forall i :: 0 <= i < |s| ==> s[i] in "0123456789abcdefABCDEF"
  }

  /** Five groups of hex digits joined by hyphens. */
  ghost predicate Groups(s: string, a: string, b: string, c: string, d: string, e: string) {
    && |a| == 8 && |b| == 4 && |c| == 4 && |d| == 4 && |e| == 12
    && IsHex(a) && IsHex(b) && IsHex(c) && IsHex(d) && IsHex(e)
    && s == a + "-" + b + "-" + c + "-" + d + "-" + e
  }

  ghost predicate IsServerId(s: string) {
    exists a, b, c, d, e :: Groups(s, a, b, c, d, e)
  }

  lemma HexDigitIs(c: char)
    ensures IsHexDigit(c) <==> c in "0123456789abcdefABCDEF"
  {
    var digits := "0123456789abcdefABCDEF";
    assert '0' <= c <= '9' ==> digits[c as int - 48] == c;
    assert 'a' <= c <= 'f' ==> digits[c as int - 87] == c;
    assert 'A' <= c <= 'F' ==> digits[c as int - 49] == c;
  }

  lemma HexIs(s: string)
    ensures IsHex(s) <==> forall i :: 0 <= i < |s| ==> IsHexDigit(s[i])
  {
    forall i | 0 <= i < |s|
      ensures IsHexDigit(s[i]) <==> s[i] in "0123456789abcdefABCDEF"
    {
      HexDigitIs(s[i]);
    }
  }

  lemma GroupsLook(s: string, a: string, b: string, c: string, d: string, e: string)
    requires Groups(s, a, b, c, d, e)
    ensures LooksLikeServerId(s)
  {
    HexIs(a);
    HexIs(b);
    HexIs(c);
    HexIs(d);
    HexIs(e);
    hide IsHex, IsHexDigit;
    forall i | 0 <= i < 36
      ensures if i == 8 || i == 13 || i == 18 || i == 23 then s[i] == '-' else IsHexDigit(s[i])
    {
      assert i < 8 ==> s[i] == a[i];
      assert 8 < i < 13 ==> s[i] == b[i - 9];
      assert 13 < i < 18 ==> s[i] == c[i - 14];
      assert 18 < i < 23 ==> s[i] == d[i - 19];
      assert 23 < i ==> s[i] == e[i - 24];
    }
  }

  lemma CutAtHyphens(s: string)
    requires |s| == 36 && s[8] == '-' && s[13] == '-' && s[18] == '-' && s[23] == '-'
    ensures s == s[..8] + "-" + s[9..13] + "-" + s[14..18] + "-" + s[19..23] + "-" + s[24..]
  {
  }

  lemma LooksLikeGroups(s: string)
    requires LooksLikeServerId(s)
    ensures IsServerId(s)
  {
    HexIs(s[..8]);
    HexIs(s[9..13]);
    HexIs(s[14..18]);
    HexIs(s[19..23]);
    HexIs(s[24..]);
    hide IsHex, IsHexDigit;
    CutAtHyphens(s);
    assert Groups(s, s[..8], s[9..13], s[14..18], s[19..23], s[24..]);
  }

  /** The shape is exactly five groups of 8, 4, 4, 4 and 12 hex digits. */
  lemma ServerIdShapeExactly(s: string)
    ensures LooksLikeServerId(s) <==> IsServerId(s)
  {
    hide Groups, LooksLikeServerId;
    if LooksLikeServerId(s) {
      LooksLikeGroups(s);
    }
    if IsServerId(s) {
      var a, b, c, d, e :| Groups(s, a, b, c, d, e);
      GroupsLook(s, a, b, c, d, e);
    }
  }

  ghost predicate AllSlashes(s: string) {
    forall i :: 0 <= i < |s| ==> s[i] == '/'
  }

  /** A name of the daemon's making: slashes, "sky-" and a server id. */
  ghost predicate IsSkyName(name: string, server: string) {
    IsServerId(server) && exists slashes :: AllSlashes(slashes) && name == slashes + "sky-" + server
  }

  lemma {:induction false} TrimSplits(name: string) returns (slashes: string)
    ensures AllSlashes(slashes) && name == slashes + TrimSlashes(name)
  {
    if name != "" && name[0] == '/' {
      var rest := TrimSplits(name[1..]);
      slashes := "/" + rest;
    } else {
      slashes := "";
    }
  }

  /** Exactly which names yield an id, and which. */
  lemma IdFromNameExactly(name: string, server: string)
    ensures IdFromName(name) == Some(server) <==> IsSkyName(name, server)
  {
    hide LooksLikeServerId, IsServerId, TrimSlashes;
    ServerIdShapeExactly(server);
    if IdFromName(name) == Some(server) {
      var slashes := TrimSplits(name);
      var t := TrimSlashes(name);
      assert t == "sky-" + t[4..];
      assert name == slashes + "sky-" + server;
    }
    if IsSkyName(name, server) {
      var slashes :| AllSlashes(slashes) && name == slashes + "sky-" + server;
      NameRoundTrip(slashes, server);
    }
  }

  /** Whose container it is: that of a label that is not empty, or else of the
      first name of the daemon's making. */
  ghost predicate Identifies(names: seq<string>, labels: map<string, string>, server: string) {
    if "sky-panel.server_id" in labels && labels["sky-panel.server_id"] != "" then
      server == labels["sky-panel.server_id"]
    else
      exists k :: 0 <= k < |names| && IsSkyName(names[k], server) && Unnamed(names[..k])
  }

  ghost predicate Unnamed(names: seq<string>) {
    forall j, server :: 0 <= j < |names| ==> !IsSkyName(names[j], server)
  }

  lemma {:induction false} FirstSkyName(names: seq<string>) returns (k: nat)
    ensures k <= |names| && (forall j :: 0 <= j < k ==> IdFromName(names[j]).None?)
    ensures k < |names| ==> IdFromName(names[k]).Some?
  {
    hide IdFromName;
    k := 0;
    while k < |names| && IdFromName(names[k]).None?
      invariant k <= |names| && forall j :: 0 <= j < k ==> IdFromName(names[j]).None?
    {
      k := k + 1;
    }
  }

  lemma UnnamedExactly(names: seq<string>)
    ensures Unnamed(names) <==> forall j :: 0 <= j < |names| ==> IdFromName(names[j]).None?
  {
    hide IdFromName, IsSkyName;
    forall j | 0 <= j < |names|
      ensures IdFromName(names[j]).None? <==> forall server :: !IsSkyName(names[j], server)
    {
      if IdFromName(names[j]).Some? {
        IdFromNameExactly(names[j], IdFromName(names[j]).value);
      }
      forall server
        ensures IsSkyName(names[j], server) ==> IdFromName(names[j]) == Some(server)
      {
        IdFromNameExactly(names[j], server);
      }
    }
  }

  lemma NameIdentifiesExactly(names: seq<string>, server: string)
    ensures IdFromNames(names) == Some(server) <==>
            exists k :: 0 <= k < |names| && IsSkyName(names[k], server) && Unnamed(names[..k])
  {
    hide IdFromName, IdFromNames, IsSkyName, Unnamed;
    var k := FirstSkyName(names);
    IdFromNamesExactly(names, k);
    UnnamedExactly(names[..k]);
    if k < |names| {
      IdFromNameExactly(names[k], server);
    }
    if n :| 0 <= n < |names| && IsSkyName(names[n], server) && Unnamed(names[..n]) {
      UnnamedExactly(names[..n]);
      IdFromNameExactly(names[n], server);
      assert forall j :: 0 <= j < n ==> names[..n][j] == names[j];
      assert n == k;
    }
  }

  /** Exactly whose container names and labels make it. */
  lemma ServerIdExactly(names: seq<string>, labels: map<string, string>, server: string)
    ensures ServerIdFrom(names, labels) == Some(server) <==> Identifies(names, labels, server)
  {
    hide IdFromNames, IsSkyName, Unnamed;
    NameIdentifiesExactly(names, server);
  }

  /** A foreign container that is merely called something with "sky-". */
  lemma SkyPanelIsForeign()
    ensures IdFromName("/sky-panel") == None && ServerIdFrom(["/sky-panel"], map[]) == None
  {
    NameRoundTrip("/", "panel");
    assert "/" + "sky-" + "panel" == "/sky-panel";
    hide IdFromName;
    IdFromNamesExactly(["/sky-panel"], 1);
  }

  function Lower(c: char): char {
    if 'A' <= c <= 'Z' then (c as int + 32) as char else c
  }

  function LowerCase(s: string): string {
    seq(|s|, i requires 0 <= i < |s| => Lower(s[i]))
  }

  /** The case of an id is not looked at, ... */
  lemma CaseIsIgnored(s: string)
    ensures LooksLikeServerId(s) <==> LooksLikeServerId(LowerCase(s))
  {
    var t := LowerCase(s);
    forall i | 0 <= i < |s|
      ensures IsHexDigit(t[i]) <==> IsHexDigit(s[i])
      ensures t[i] == '-' <==> s[i] == '-'
    {
      assert t[i] == Lower(s[i]);
    }
  }

  /** ... so one in upper case is accepted. */
  lemma UpperCaseIdIsAccepted()
    ensures var id := seq(36, i => if i in {8, 13, 18, 23} then '-' else 'A');
            IdFromName("/sky-" + id) == Some(id)
  {
    var id := seq(36, i => if i in {8, 13, 18, 23} then '-' else 'A');
    assert LooksLikeServerId(id);
    hide LooksLikeServerId;
    NameRoundTrip("/", id);
    assert "/" + "sky-" + id == "/sky-" + id;
  }

  // ---- Reconcile ----

  function Reconciled(tracked: map<string, string>, found: seq<ManagedContainer>): map<string, string> {
    if found == [] then tracked
    else
      var before, mc := Reconciled(tracked, found[..|found| - 1]), found[|found| - 1];
      if mc.serverId in before then before else before[mc.serverId := mc.containerId]
  }

  function Get<V>(m: map<string, V>, server: string): Option<V> {
    if server in m then Some(m[server]) else None
  }

  /** The container of the first entry for `server`, in list order. */
  function FirstFound(found: seq<ManagedContainer>, server: string): Option<string> {
    if found == [] then None
    else if found[0].serverId == server then Some(found[0].containerId)
    else FirstFound(found[1..], server)
  }

  /** The first listed container that belongs to `server`. */
  function FirstItem(items: seq<Item>, server: string): Option<string> {
    if items == [] then None
    else if ServerIdFrom(items[0].names, items[0].labels) == Some(server) then Some(items[0].id)
    else FirstItem(items[1..], server)
  }

  lemma {:induction false} FirstFoundSnoc(found: seq<ManagedContainer>, mc: ManagedContainer, server: string)
    ensures FirstFound(found + [mc], server) ==
            Or(FirstFound(found, server), if mc.serverId == server then Some(mc.containerId) else None)
  {
    if found == [] {
      assert found + [mc] == [mc];
      assert FirstFound([], server) == None;
    } else {
      FirstFoundSnoc(found[1..], mc, server);
      assert (found + [mc])[1..] == found[1..] + [mc];
    }
  }

  lemma {:induction false} FirstItemSnoc(items: seq<Item>, it: Item, server: string)
    ensures FirstItem(items + [it], server) ==
            Or(FirstItem(items, server),
               if ServerIdFrom(it.names, it.labels) == Some(server) then Some(it.id) else None)
  {
    hide ServerIdFrom;
    if items == [] {
      assert items + [it] == [it];
      assert FirstItem([], server) == None;
    } else {
      FirstItemSnoc(items[1..], it, server);
      assert (items + [it])[1..] == items[1..] + [it];
    }
  }

  /** Existing entries never change, and every other server is tracked exactly
      when it was found, at the first container found for it. */
  lemma {:induction false} ReconciledExactly(tracked: map<string, string>, found: seq<ManagedContainer>, server: string)
    ensures Get(Reconciled(tracked, found), server) == Or(Get(tracked, server), FirstFound(found, server))
  {
    if found != [] {
      var front, mc := found[..|found| - 1], found[|found| - 1];
      ReconciledExactly(tracked, front, server);
      FirstFoundSnoc(front, mc, server);
      assert found == front + [mc];
    }
  }

  /** The rule inside the listing is the rule everywhere else. */
  lemma ListedAgrees(it: Item)
    ensures ListedServerId(it) == ServerIdFrom(it.names, it.labels)
  {
  }

  lemma {:induction false} FirstFoundIsFirstItem(items: seq<Item>, server: string)
    ensures FirstFound(ListManaged(items), server) == FirstItem(items, server)
  {
    hide ServerIdFrom, ListedServerId;
    if items != [] {
      var front, it := items[..|items| - 1], items[|items| - 1];
      FirstFoundIsFirstItem(front, server);
      FirstItemSnoc(front, it, server);
      assert items == front + [it];
      ListedAgrees(it);
      if ListedServerId(it).Some? {
        FirstFoundSnoc(ListManaged(front), ManagedContainer(ListedServerId(it).value, it.id), server);
      }
    }
  }

  /** Reconciling an empty map with the container list tracks exactly the server
      ids that listed containers carry, each at the first such container. */
  lemma ReconcileTracksExactly(items: seq<Item>, server: string)
    ensures Get(Reconciled(map[], ListManaged(items)), server) == FirstItem(items, server)
  {
    ReconciledExactly(map[], ListManaged(items), server);
    FirstFoundIsFirstItem(items, server);
  }
}
