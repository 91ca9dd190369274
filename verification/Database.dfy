/** Provisioning databases: the statements built from untrusted text, and what a
provisioning that fails half way leaves behind. */
module Database {
  import opened Basics

  const QUOTE: char := '\''
  const BACKSLASH: char := '\\'

  predicate IsIdentChar(c: char) {
    'a' <= c <= 'z' || 'A' <= c <= 'Z' || '0' <= c <= '9' || c == '_'
  }

  /** Identifiers that may be put into a statement as they are. */
  predicate ValidIdent(s: string, max: nat) {
    0 < |s| <= max && forall i :: 0 <= i < |s| ==> IsIdentChar(s[i])
  }

  /** By the code points: an identifier is between 1 and `max` ASCII letters, digits
      and underscores. */
  lemma ValidIdentExactly(s: string, max: nat)
    ensures ValidIdent(s, max) <==>
            && 1 <= |s| <= max
            && forall i :: 0 <= i < |s| ==>
                 var c := s[i] as int; 0x41 <= c <= 0x5A || 0x61 <= c <= 0x7A || 0x30 <= c <= 0x39 || c == 0x5F
  {
  }

  /** Every `c` replaced by `sub`. */
  function Replace(s: string, c: char, sub: string): string {
    if s == "" then "" else (if s[0] == c then sub else [s[0]]) + Replace(s[1..], c, sub)
  }

  /** Two replacements, one after the other. */
  function EscapeSqlString(s: string): string {
    Replace(Replace(s, BACKSLASH, "\\\\"), QUOTE, "\\'")
  }

  function EscapeChar(c: char): string {
    if c == BACKSLASH || c == QUOTE then [BACKSLASH, c] else [c]
  }

  /** Each character escaped by itself. */
  function EscapeEach(s: string): string {
    if s == "" then "" else EscapeChar(s[0]) + EscapeEach(s[1..])
  }

  lemma {:induction false} ReplaceAppend(a: string, b: string, c: char, sub: string)
    ensures Replace(a + b, c, sub) == Replace(a, c, sub) + Replace(b, c, sub)
  {
    if a == "" {
      assert a + b == b;
    } else {
      ReplaceAppend(a[1..], b, c, sub);
      assert (a + b)[1..] == a[1..] + b;
      Concat3(if a[0] == c then sub else [a[0]], Replace(a[1..], c, sub), Replace(b, c, sub));
    }
  }

  /** The second replacement never touches what the first put in. */
  lemma {:induction false} EscapeIsPerCharacter(s: string)
    ensures EscapeSqlString(s) == EscapeEach(s)
  {
    if s != "" {
      var first := if s[0] == BACKSLASH then "\\\\" else [s[0]];
      var rest := Replace(s[1..], BACKSLASH, "\\\\");
      EscapeIsPerCharacter(s[1..]);
      ReplaceAppend(first, rest, QUOTE, "\\'");
      ReplaceOne(first);
    }
  }

  lemma ReplaceOne(s: string)
    requires s == "\\\\" || (|s| == 1 && s[0] != BACKSLASH)
    ensures Replace(s, QUOTE, "\\'") == EscapeChar(s[0])
  {
    if s == "\\\\" {
      assert s[1..] == "\\" && s[1..][1..] == "";
      assert Replace("\\", QUOTE, "\\'") == "\\" + Replace("", QUOTE, "\\'");
    } else {
      assert s[1..] == "";
    }
  }

  // ---- How the server reads a literal ----

  /** What a backslash and a character stand for. */
  function Unescape(c: char): string {
    match c
    case '0' => "\0"
    case 'b' => "\U{0008}"
    case 'n' => "\n"
    case 'r' => "\r"
    case 't' => "\t"
    case 'Z' => "\U{001A}"
    case '%' => "\\%"
    case '_' => "\\_"
    case _ => [c]
  }

  datatype Literal = Literal(value: string, rest: string)

  /** Reads a quoted literal after its opening quote: a backslash escapes, a
      doubled quote is a quote, a single one ends it. */
  function ReadLiteral(s: string): Option<Literal> {
    if s == "" then None
    else if s[0] == QUOTE && !(|s| > 1 && s[1] == QUOTE) then Some(Literal("", s[1..]))
    else if s[0] == BACKSLASH && |s| < 2 then None
    else
      var piece := if s[0] == BACKSLASH then Unescape(s[1]) else [s[0]];
      var rest := if s[0] == BACKSLASH || s[0] == QUOTE then s[2..] else s[1..];
      match ReadLiteral(rest)
      case None => None
      case Some(l) => Some(Literal(piece + l.value, l.rest))
  }

  lemma ReadEscapedChar(c: char, s: string)
    ensures ReadLiteral(EscapeChar(c) + s) ==
            match ReadLiteral(s)
            case None => None
            case Some(l) => Some(Literal([c] + l.value, l.rest))
  {
    var t := EscapeChar(c) + s;
    if c == BACKSLASH || c == QUOTE {
      assert t[0] == BACKSLASH && t[1] == c && t[2..] == s;
    } else {
      assert t[0] == c && t[1..] == s;
    }
  }

  /** For every string, the literal reads back as that string and stops at its
      own closing quote. */
  lemma {:induction false} LiteralRoundTrip(s: string, rest: string)
    requires rest == "" || rest[0] != QUOTE
    ensures ReadLiteral(EscapeSqlString(s) + [QUOTE] + rest) == Some(Literal(s, rest))
  {
    EscapeIsPerCharacter(s);
    hide ReadLiteral, EscapeSqlString;
    if s == "" {
      assert EscapeEach(s) + [QUOTE] + rest == [QUOTE] + rest;
      ReadClosingQuote(rest);
    } else {
      var tail := EscapeEach(s[1..]) + [QUOTE] + rest;
      EscapeIsPerCharacter(s[1..]);
      LiteralRoundTrip(s[1..], rest);
      assert EscapeEach(s) + [QUOTE] + rest == EscapeChar(s[0]) + tail;
      ReadEscapedChar(s[0], tail);
      assert s == [s[0]] + s[1..];
    }
  }

  lemma ReadClosingQuote(rest: string)
    requires rest == "" || rest[0] != QUOTE
    ensures ReadLiteral([QUOTE] + rest) == Some(Literal("", rest))
  {
    assert ([QUOTE] + rest)[1..] == rest;
  }

  // ---- The statement that creates a user ----

  const CREATE_USER := "CREATE USER IF NOT EXISTS '"
  const IDENTIFIED := "@'%' IDENTIFIED BY '"

  function CreateUser(user: string, password: string): string {
    CREATE_USER + user + "'" + IDENTIFIED + EscapeSqlString(password) + "'"
  }

  datatype Account = Account(user: string, password: string)

  function ReadCreateUser(stmt: string): Option<Account> {
    if !(CREATE_USER <= stmt) then None
    else
      match ReadLiteral(stmt[|CREATE_USER|..])
      case None => None
      case Some(user) =>
        if !(IDENTIFIED <= user.rest) then None
        else
          match ReadLiteral(user.rest[|IDENTIFIED|..])
          case None => None
          case Some(password) => if password.rest == "" then Some(Account(user.value, password.value)) else None
  }

  lemma {:induction false} IdentNeedsNoEscape(s: string)
    requires forall i :: 0 <= i < |s| ==> IsIdentChar(s[i])
    ensures EscapeSqlString(s) == s
  {
    EscapeIsPerCharacter(s);
    if s != "" {
      IdentNeedsNoEscape(s[1..]);
      EscapeIsPerCharacter(s[1..]);
    }
  }

  /** The server reads exactly the user and the password that were meant, and
      nothing after them. */
  lemma CreateUserRoundTrip(user: string, password: string)
    requires ValidIdent(user, 32)
    ensures ReadCreateUser(CreateUser(user, password)) == Some(Account(user, password))
  {
    IdentNeedsNoEscape(user);
    hide EscapeSqlString, ReadLiteral;
    var pass := EscapeSqlString(password);
    var rest := IDENTIFIED + pass + "'";
    var stmt := CreateUser(user, password);
    assert stmt == CREATE_USER + (EscapeSqlString(user) + [QUOTE] + rest);
    assert stmt[|CREATE_USER|..] == EscapeSqlString(user) + [QUOTE] + rest;
    assert rest[0] == '@';
    LiteralRoundTrip(user, rest);
    assert rest[|IDENTIFIED|..] == pass + [QUOTE] + "";
    LiteralRoundTrip(password, "");
  }

  /** The statement, written out, ... */
  lemma CreateUserIs(user: string, password: string)
    ensures CreateUser(user, password) ==
            "CREATE USER IF NOT EXISTS '" + user + "'@'%' IDENTIFIED BY '" + EscapeSqlString(password) + "'"
  {
    hide EscapeSqlString;
    assert "'" + IDENTIFIED == "'@'%' IDENTIFIED BY '";
    Concat3(CREATE_USER + user, "'", IDENTIFIED);
  }

  /** ... and the two escapes in it. */
  lemma EscapesAre()
    ensures EscapeSqlString("'") == "\\'" && EscapeSqlString("\\") == "\\\\"
  {
    EscapeIsPerCharacter("'");
    EscapeIsPerCharacter("\\");
    hide EscapeSqlString;
    assert "'"[1..] == "" && "\\"[1..] == "";
  }

  /** An identifier cannot end the quotes it is put between. */
  lemma IdentStaysQuoted(name: string, max: nat, rest: string)
    requires ValidIdent(name, max)
    ensures IndexOf(name + "`" + rest, '`') == |name| && IndexOf(name + "'" + rest, QUOTE) == |name|
    ensures BACKSLASH !in name
  {
    hide IndexOf;
    assert '`' !in name && QUOTE !in name;
    IndexOfAppend(name, "`" + rest, '`');
    IndexOfAppend(name, "'" + rest, QUOTE);
    Concat3(name, "`", rest);
    Concat3(name, "'", rest);
  }

  // ---- Provisioning and its compensation ----

  /** What becomes of a statement: carried out, refused, or carried out while its
      answer is lost. */
  datatype Fate = Works | Fails | Unheard

  /** Whether there is a connection, and the fate of the five statements. */
  datatype Luck = Luck(connects: bool, database: Fate, user: Fate, grant: Fate, dropDatabase: Fate, dropUser: Fate)

  /** What the server keeps; dropping a user takes the user's grants along. */
  datatype Catalog = Catalog(databases: set<string>, users: map<string, string>, grants: set<(string, string)>)

  ghost predicate Valid(c: Catalog) {
    forall g :: g in c.grants ==> g.1 in c.users
  }

  function WithUser(users: map<string, string>, user: string, password: string): map<string, string> {
    if user in users then users else users[user := password]
  }

  function NotOf(grants: set<(string, string)>, user: string): set<(string, string)> {
    set g | g in grants && g.1 != user
  }

  /** What the compensation leaves of `c` when the second half failed. */
  function Compensated(c: Catalog, name: string, user: string, password: string, luck: Luck): Catalog {
    var users := if luck.user.Fails? then c.users else WithUser(c.users, user, password);
    var grants := if luck.user.Works? && luck.grant.Unheard? then c.grants + {(name, user)} else c.grants;
    Catalog(
      if luck.dropDatabase.Fails? then c.databases + {name} else c.databases - {name},
      if luck.dropUser.Fails? then users else users - {user},
      if luck.dropUser.Fails? then grants else NotOf(grants, user))
  }

  /** Nothing that was there before is dropped, and nothing that was not is left:
      what a working drop hits was not there before, what a refused drop leaves
      was. */
  predicate Restores(c: Catalog, name: string, user: string, luck: Luck) {
    && (luck.dropDatabase.Fails? <==> name in c.databases)
    && (if luck.dropUser.Fails? then
          && (luck.user.Fails? || user in c.users)
          && (luck.user.Works? && luck.grant.Unheard? ==> (name, user) in c.grants)
        else user !in c.users)
  }

  lemma NotOfStranger(c: Catalog, user: string)
    requires Valid(c)
    ensures user !in c.users ==> NotOf(c.grants, user) == c.grants
  {
  }

  /** The compensation puts back what was there exactly in those cases. In
      particular, when both drops work, only if neither the database nor the user
      existed: it drops what it did not create. */
  lemma CompensationRestoresExactly(c: Catalog, name: string, user: string, password: string, luck: Luck)
    requires Valid(c)
    ensures Compensated(c, name, user, password, luck) == c <==> Restores(c, name, user, luck)
  {
    NotOfStranger(c, user);
    var d := Compensated(c, name, user, password, luck);
    assert d.databases == c.databases <==> (luck.dropDatabase.Fails? <==> name in c.databases) by {
      assert luck.dropDatabase.Fails? ==> name in d.databases;
      assert !luck.dropDatabase.Fails? ==> name !in d.databases;
    }
    if !luck.dropUser.Fails? {
      assert user !in d.users;
      assert user !in c.users ==> d.users == c.users;
      if luck.user.Works? && luck.grant.Unheard? {
        assert NotOf(c.grants + {(name, user)}, user) == NotOf(c.grants, user);
      }
    } else {
      assert !luck.user.Fails? ==> user in d.users;
      assert luck.user.Works? && luck.grant.Unheard? ==> (name, user) in d.grants;
    }
  }

  /** A database in use, its user and the user's grants on every database are
      gone after a grant that fails. */
  lemma PreexistingDatabaseIsDropped(name: string, other: string, user: string, password: string)
    requires name != other
    ensures var c := Catalog({name, other}, map[user := password], {(name, user), (other, user)});
            var luck := Luck(true, Works, Works, Fails, Works, Works);
            Valid(c) && Compensated(c, name, user, password, luck) == Catalog({other}, map[], {})
  {
  }

  // ---- What a grant covers ----

  /** In a grant the server reads an underscore of the database name as any one
      character. */
  predicate Covers(granted: string, database: string) {
    && |granted| == |database|
    && forall i :: 0 <= i < |granted| ==> granted[i] == '_' || granted[i] == database[i]
  }

  ghost predicate MayUse(grants: set<(string, string)>, user: string, database: string) {
    exists g :: g in grants && g.1 == user && Covers(g.0, database)
  }

  /** Another database that a grant on a name with an underscore covers. */
  lemma UnderscoreCoversOther(name: string, i: nat) returns (other: string)
    requires i < |name| && name[i] == '_'
    ensures other != name && Covers(name, other)
  {
    other := name[i := 'x'];
    assert other[i] != name[i];
  }

  lemma CoversItself(name: string)
    ensures Covers(name, name)
    ensures '_' !in name ==> forall d :: Covers(name, d) ==> d == name
  {
  }

  lemma GrantAdds(grants: set<(string, string)>, name: string, user: string, database: string)
    ensures MayUse(grants + {(name, user)}, user, database) <==>
            MayUse(grants, user, database) || Covers(name, database)
  {
    var more := grants + {(name, user)};
    assert (name, user) in more;
    if MayUse(grants, user, database) {
      var g :| g in grants && g.1 == user && Covers(g.0, database);
      assert g in more;
    }
  }

  /** A new user is scoped to the one database exactly when its name has no
      underscore. */
  lemma NewUserScopedExactly(c: Catalog, name: string, user: string)
    requires Valid(c) && user !in c.users
    ensures (forall d :: MayUse(c.grants + {(name, user)}, user, d) <==> d == name) <==> '_' !in name
  {
    forall d
      ensures MayUse(c.grants + {(name, user)}, user, d) <==> Covers(name, d)
    {
      GrantAdds(c.grants, name, user, d);
    }
    hide MayUse;
    CoversItself(name);
    if '_' in name {
      var i :| 0 <= i < |name| && name[i] == '_';
      var other := UnderscoreCoversOther(name, i);
    }
  }

  /** The counterexample: granted "a_b", the user may use "axb". */
  lemma UnderscoreReachesOther(user: string)
    ensures ValidIdent("a_b", 64) && MayUse({("a_b", user)}, user, "axb")
  {
    assert ("a_b", user) in {("a_b", user)} && Covers("a_b", "axb");
  }

  class Server {
    var databases: set<string>
    var users: map<string, string>
    var grants: set<(string, string)>

    ghost function View(): Catalog
      reads this
    {
      Catalog(databases, users, grants)
    }

    /** Creates the database and its user. When the second half fails, both are
        dropped again, whether or not they were there before; each drop may fail
        by itself. */
    method CreateDatabase(name: string, user: string, password: string, luck: Luck) returns (ok: bool)
      requires Valid(View())
      modifies this
      ensures Valid(View())
      ensures ok <==> ValidIdent(name, 64) && ValidIdent(user, 32) && luck.connects &&
                      luck.database.Works? && luck.user.Works? && luck.grant.Works?
      ensures ok ==>
                && databases == old(databases) + {name}
                && users == WithUser(old(users), user, password)
                && grants == old(grants) + {(name, user)}
      ensures ok && user !in old(users) ==>
                ((forall d :: MayUse(grants, user, d) <==> d == name) <==> '_' !in name)
      ensures !(ValidIdent(name, 64) && ValidIdent(user, 32) && luck.connects) ==> View() == old(View())
      ensures ValidIdent(name, 64) && ValidIdent(user, 32) && luck.connects && !ok ==>
                match luck.database
                case Fails => View() == old(View())
                case Unheard => View() == old(View()).(databases := old(databases) + {name})
                case Works =>
                  && View() == Compensated(old(View()), name, user, password, luck)
                  && (View() == old(View()) <==> Restores(old(View()), name, user, luck))
      ensures !ok && name !in old(databases) ==>
                (name in databases <==>
                  && ValidIdent(name, 64) && ValidIdent(user, 32) && luck.connects
                  && (luck.database.Unheard? || (luck.database.Works? && luck.dropDatabase.Fails?)))
    {
      if !ValidIdent(name, 64) || !ValidIdent(user, 32) {
        return false;
      }
      if !luck.connects || luck.database.Fails? {
        return false;
      }
      databases := databases + {name};
      if luck.database.Unheard? {
        return false;
      }
      if !luck.user.Fails? {
        users := WithUser(users, user, password);
      }
      if luck.user.Works? {
        if !luck.grant.Fails? {
          grants := grants + {(name, user)};
        }
        if luck.grant.Works? {
          if user !in old(users) {
            NewUserScopedExactly(old(View()), name, user);
          }
          return true;
        }
      }
      if !luck.dropDatabase.Fails? {
        databases := databases - {name};
      }
      if !luck.dropUser.Fails? {
        users := users - {user};
        grants := NotOf(grants, user);
      }
      CompensationRestoresExactly(old(View()), name, user, password, luck);
      assert View().databases == Compensated(old(View()), name, user, password, luck).databases;
      return false;
    }
  }
}
