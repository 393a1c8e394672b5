/** The user and role export: names collected from `list users;` and
    `list roles;` output, one `CREATE USER` statement per ordinary user with
    roles of its own, and the `CREATE ROLE` / `GRANT` text for custom roles.
    The server's replies are parameters. */
module Users {
  import opened Text
  import opened Counting

  /** The parts of a JSON reply the export looks at. */
  datatype Json = Str(s: string) | Obj(fields: seq<(string, Json)>) | Other

  // ---- names from list output ----

  /** The string values of `fields` whose key starts with `tag`, in order. */
  function FieldNames(fields: seq<(string, Json)>, tag: string): seq<string> {
    if fields == [] then []
    else
      var last := fields[|fields| - 1];
      FieldNames(fields[..|fields| - 1], tag)
        + (if tag <= last.0 && last.1.Str? then [last.1.s] else [])
  }

  function ItemNames(item: Json, tag: string): seq<string> {
    if item.Obj? then FieldNames(item.fields, tag) else []
  }

  /** The names a list output holds: from each object item, in order, the
      string values under keys starting with `tag` (`user` or `role`). */
  function NamesUnder(items: seq<Json>, tag: string): seq<string> {
    if items == [] then []
    else NamesUnder(items[..|items| - 1], tag) + ItemNames(items[|items| - 1], tag)
  }

  /** Scans the list output item by item and key by key. */
  method CollectNames(items: seq<Json>, tag: string) returns (names: seq<string>)
    ensures names == NamesUnder(items, tag)
  {
    names := [];
    var i := 0;
    while i < |items|
      invariant 0 <= i <= |items|
      invariant names == NamesUnder(items[..i], tag)
    {
      assert items[..i + 1][..i] == items[..i];
      var item := items[i];
      if item.Obj? {
        var before := names;
        var j := 0;
        while j < |item.fields|
          invariant 0 <= j <= |item.fields|
          invariant names == before + FieldNames(item.fields[..j], tag)
        {
          assert item.fields[..j + 1][..j] == item.fields[..j];
          var (key, value) := item.fields[j];
          if tag <= key && value.Str? {
            names := names + [value.s];
          }
          j := j + 1;
        }
        assert item.fields[..j] == item.fields;
      }
      i := i + 1;
    }
    assert items[..i] == items;
  }

  /** A string sits under a matching key of an object item. */
  ghost predicate Listed(items: seq<Json>, tag: string, n: string) {
    exists i, k :: 0 <= i < |items| && items[i].Obj? && 0 <= k < |items[i].fields|
      && tag <= items[i].fields[k].0 && items[i].fields[k].1 == Str(n)
  }

  lemma {:induction false} FieldNamesMembers(fields: seq<(string, Json)>, tag: string, n: string)
    ensures n in FieldNames(fields, tag) <==>
      exists k :: 0 <= k < |fields| && tag <= fields[k].0 && fields[k].1 == Str(n)
  {
    if fields != [] {
      var init := fields[..|fields| - 1];
      FieldNamesMembers(init, tag, n);
      if exists k :: 0 <= k < |fields| && tag <= fields[k].0 && fields[k].1 == Str(n) {
        var k :| 0 <= k < |fields| && tag <= fields[k].0 && fields[k].1 == Str(n);
        if k < |init| {
          assert init[k] == fields[k];
        }
      }
    }
  }

  /** The collected names are exactly the listed ones. */
  lemma {:induction false} NamesUnderMembers(items: seq<Json>, tag: string, n: string)
    ensures n in NamesUnder(items, tag) <==> Listed(items, tag, n)
  {
    if items != [] {
      var init := items[..|items| - 1];
      var last := items[|items| - 1];
      NamesUnderMembers(init, tag, n);
      if last.Obj? {
        FieldNamesMembers(last.fields, tag, n);
      }
      if Listed(items, tag, n) {
        var i, k :| 0 <= i < |items| && items[i].Obj? && 0 <= k < |items[i].fields|
          && tag <= items[i].fields[k].0 && items[i].fields[k].1 == Str(n);
        if i < |init| {
          assert init[i] == items[i];
        }
      }
      if Listed(init, tag, n) {
        var i, k :| 0 <= i < |init| && init[i].Obj? && 0 <= k < |init[i].fields|
          && tag <= init[i].fields[k].0 && init[i].fields[k].1 == Str(n);
        assert items[i] == init[i];
      }
    }
  }

  // ---- CREATE USER ----

  /** `describe user` reply: nothing usable, or the output list, of which the
      first element's role names are read (a role without a name is `None`). */
  datatype UserInfo = UserInfo(roles: seq<Option<string>>)
  datatype Described = NotDescribed | Described(output: seq<UserInfo>)

  const SystemUsers: seq<string> := ["admin", "sys"]

  /** A role entry whose name is set, not empty, and not the user's own
      (`<user>.`-prefixed). */
  function Kept(user: string): Option<string> -> bool {
    (o: Option<string>) => o.Some? && o.value != "" && !(user + "." <= o.value)
  }

  /** Names as the role entries that carry them. */
  function Named(names: seq<string>): (r: seq<Option<string>>)
    ensures |r| == |names| && forall i :: 0 <= i < |r| ==> r[i] == Some(names[i])
  {
    seq(|names|, i requires 0 <= i < |names| => Some(names[i]))
  }

  lemma NamedInjective(a: seq<string>, b: seq<string>)
    requires Named(a) == Named(b)
    ensures a == b
  {
    assert forall i :: 0 <= i < |a| ==> Named(a)[i] == Some(a[i]) && Named(b)[i] == Some(b[i]);
  }

  /** The user's role names that are kept: the comprehension's filter, in
      order and as often as listed. */
  function KeptRoles(user: string, roles: seq<Option<string>>): (r: seq<string>)
    ensures IsFilter(Named(r), roles, Kept(user))
  {
    if roles == [] then []
    else
      var init, o := roles[..|roles| - 1], roles[|roles| - 1];
      var rest := KeptRoles(user, init);
      FilterSnoc(Named(rest), init, o, Kept(user));
      assert init + [o] == roles;
      var r := rest + (if o.Some? && o.value != "" && !(user + "." <= o.value) then [o.value] else []);
      assert Named(r) == Named(rest) + (if Kept(user)(o) then [o] else []);
      r
  }

  /** A role name is kept exactly when the user's role list holds it, it is
      not empty, and it is not the user's own. */
  lemma KeptRolesMembers(user: string, roles: seq<Option<string>>, n: string)
    ensures n in KeptRoles(user, roles) <==> Some(n) in roles && n != "" && !(user + "." <= n)
  {
    var k := KeptRoles(user, roles);
    FilterMembers(Named(k), roles, Kept(user));
    assert n in k <==> Some(n) in Named(k) by {
      if n in k {
        var i :| 0 <= i < |k| && k[i] == n;
        assert Named(k)[i] == Some(n);
      }
    }
  }

  function CreateUser(user: string, roles: seq<string>): string {
    "CREATE USER " + user + " IDENTIFIED BY password DEFAULT ROLE " + Join(roles, ", ") + ";"
  }

  /** The statement for one user, if it gets one. */
  function UserStatement(user: string, d: Described): Option<string> {
    if user in SystemUsers then None
    else match d
      case NotDescribed => None
      case Described(output) =>
        if output == [] then None
        else
          var kept := KeptRoles(user, output[0].roles);
          if kept == [] then None else Some(CreateUser(user, kept))
  }

  /** A user gets a statement exactly when it is not a system user, was
      described, and its first output lists a role name that is set, not
      empty and not its own; the statement's DEFAULT ROLE list is then the
      filter of that role list by those conditions, in order. */
  lemma UserStatementCases(user: string, d: Described, kept: seq<string>)
    ensures UserStatement(user, d).Some? <==>
      user !in SystemUsers && d.Described? && d.output != []
      && exists n :: Some(n) in d.output[0].roles && n != "" && !(user + "." <= n)
    ensures UserStatement(user, d).Some? && IsFilter(Named(kept), d.output[0].roles, Kept(user)) ==>
      UserStatement(user, d).value == CreateUser(user, kept)
  {
    if d.Described? && d.output != [] {
      var roles := d.output[0].roles;
      var k := KeptRoles(user, roles);
      forall n | Some(n) in roles && n != "" && !(user + "." <= n)
        ensures k != []
      {
        KeptRolesMembers(user, roles, n);
      }
      if k != [] {
        KeptRolesMembers(user, roles, k[0]);
      }
      if IsFilter(Named(kept), roles, Kept(user)) {
        FilterUnique(Named(kept), Named(k), roles, Kept(user));
        NamedInjective(kept, k);
      }
    }
  }

  function StatementsFor(users: seq<string>, describe: string -> Described): seq<string> {
    if users == [] then []
    else
      var u := users[|users| - 1];
      var s := UserStatement(u, describe(u));
      StatementsFor(users[..|users| - 1], describe) + (if s.Some? then [s.value] else [])
  }

  /** The statements are those of the users that get one, in user order. */
  method CreateUserStatements(users: seq<string>, describe: string -> Described)
    returns (statements: seq<string>)
    ensures statements == StatementsFor(users, describe)
  {
    statements := [];
    var i := 0;
    while i < |users|
      invariant 0 <= i <= |users|
      invariant statements == StatementsFor(users[..i], describe)
    {
      assert users[..i + 1][..i] == users[..i];
      var user := users[i];
      var d := describe(user);
      if user == "admin" || user == "sys" {
        i := i + 1;
        continue;
      }
      if d.NotDescribed? || d.output == [] {
        i := i + 1;
        continue;
      }
      var kept := KeptRoles(user, d.output[0].roles);
      if kept != [] {
        statements := statements + [CreateUser(user, kept)];
      }
      i := i + 1;
    }
    assert users[..i] == users;
  }

  /** Every statement belongs to a listed user that gets one, and no system
      user ever gets one. */
  lemma {:induction false} StatementsAreUsers(users: seq<string>, describe: string -> Described, s: string)
    requires s in StatementsFor(users, describe)
    ensures exists u :: u in users && u !in SystemUsers && UserStatement(u, describe(u)) == Some(s)
  {
    var init := users[..|users| - 1];
    var u := users[|users| - 1];
    if s in StatementsFor(init, describe) {
      StatementsAreUsers(init, describe, s);
      var w :| w in init && w !in SystemUsers && UserStatement(w, describe(w)) == Some(s);
      assert w in users;
    } else {
      assert UserStatement(u, describe(u)) == Some(s);
    }
  }

  /** Every listed user that gets a statement has it in the output. */
  lemma {:induction false} UsersHaveStatements(users: seq<string>, describe: string -> Described, u: string)
    requires u in users && UserStatement(u, describe(u)).Some?
    ensures UserStatement(u, describe(u)).value in StatementsFor(users, describe)
  {
    var init := users[..|users| - 1];
    if u != users[|users| - 1] {
      assert u in init;
      UsersHaveStatements(init, describe, u);
    }
  }

  /** `export_users` up to writing the file: fails when no user is listed,
      and otherwise yields the statements for the listed users. */
  method ExportUsers(listing: seq<Json>, describe: string -> Described)
    returns (ok: bool, statements: seq<string>)
    ensures ok <==> NamesUnder(listing, "user") != []
    ensures ok ==> statements == StatementsFor(NamesUnder(listing, "user"), describe)
    ensures !ok ==> statements == []
  {
    var users := CollectNames(listing, "user");
    if users == [] {
      return false, [];
    }
    statements := CreateUserStatements(users, describe);
    ok := true;
  }

  /** Two statements for users without blanks in their names are equal only
      for the same user and the same role list text. */
  lemma CreateUserInjective(u1: string, r1: seq<string>, u2: string, r2: seq<string>)
    requires Lacks(u1, ' ') && Lacks(u2, ' ')
    requires CreateUser(u1, r1) == CreateUser(u2, r2)
    ensures u1 == u2 && Join(r1, ", ") == Join(r2, ", ")
  {
    StatementSplit(u1, Join(r1, ", "), u2, Join(r2, ", "));
  }

  /** The statement text with the role list already joined. */
  lemma StatementSplit(u1: string, j1: string, u2: string, j2: string)
    requires Lacks(u1, ' ') && Lacks(u2, ' ')
    requires "CREATE USER " + u1 + " IDENTIFIED BY password DEFAULT ROLE " + j1 + ";"
          == "CREATE USER " + u2 + " IDENTIFIED BY password DEFAULT ROLE " + j2 + ";"
    ensures u1 == u2 && j1 == j2
  {
    var head := "CREATE USER ";
    var tail := " IDENTIFIED BY password DEFAULT ROLE ";
    var t1 := tail + (j1 + ";");
    var t2 := tail + (j2 + ";");
    Assoc5(head, u1, tail, j1, ";");
    Assoc5(head, u2, tail, j2, ";");
    CancelLeft(head, u1 + t1, u2 + t2);
    assert t1[0] == ' ' && t2[0] == ' ';
    SplitAtBlank(u1, t1, u2, t2);
    CancelLeft(tail, j1 + ";", j2 + ";");
    CancelRight(j1, j2, ";");
  }

  lemma Assoc5(a: string, b: string, c: string, d: string, e: string)
    ensures a + b + c + d + e == a + (b + (c + (d + e)))
  {
  }

  lemma CancelLeft(a: string, x: string, y: string)
    requires a + x == a + y
    ensures x == y
  {
    assert x == (a + x)[|a|..];
  }

  lemma CancelRight(x: string, y: string, b: string)
    requires x + b == y + b
    ensures x == y
  {
    assert x == (x + b)[..|x|];
  }

  /** A blank-free word followed by text starting with a blank is read back
      from the concatenation. */
  lemma SplitAtBlank(u1: string, t1: string, u2: string, t2: string)
    requires Lacks(u1, ' ') && Lacks(u2, ' ') && |t1| > 0 && |t2| > 0 && t1[0] == ' ' && t2[0] == ' '
    requires u1 + t1 == u2 + t2
    ensures u1 == u2 && t1 == t2
  {
    var s := u1 + t1;
    assert s[|u1|] == ' ' && s[|u2|] == ' ';
    assert |u1| == |u2|;
    assert u1 == s[..|u1|] && u2 == s[..|u2|];
    assert t1 == s[|u1|..] && t2 == s[|u2|..];
  }

  // ---- roles ----

  const UserRoleSuffixes: seq<string> := [".dev", ".enduser", ".admin", ".useradmin"]

  /** The role is one of the roles created for a listed user. */
  predicate IsUserRole(role: string, users: seq<string>) {
    exists i, k :: 0 <= i < |users| && 0 <= k < |UserRoleSuffixes| && role == users[i] + UserRoleSuffixes[k]
  }

  /** The nested scan over users and suffixes, leaving both loops at the
      first hit. */
  method ScanUserRole(role: string, users: seq<string>) returns (found: bool)
    ensures found <==> IsUserRole(role, users)
  {
    found := false;
    var i := 0;
    while i < |users|
      invariant 0 <= i <= |users|
      invariant !found ==> forall i', k :: 0 <= i' < i && 0 <= k < |UserRoleSuffixes| ==> role != users[i'] + UserRoleSuffixes[k]
      invariant found ==> IsUserRole(role, users)
    {
      var k := 0;
      while k < |UserRoleSuffixes|
        invariant 0 <= k <= |UserRoleSuffixes|
        invariant !found ==> forall k' :: 0 <= k' < k ==> role != users[i] + UserRoleSuffixes[k']
        invariant found ==> IsUserRole(role, users)
      {
        if role == users[i] + UserRoleSuffixes[k] {
          found := true;
          break;
        }
        k := k + 1;
      }
      if found {
        break;
      }
      i := i + 1;
    }
  }

  /** A role is exported unless it is global, a system role, or a user's own. */
  predicate Exported(role: string, users: seq<string>) {
    !("Global." <= role) && !("System$" <= role) && !IsUserRole(role, users)
  }

  function ExportedBy(users: seq<string>): string -> bool {
    role => Exported(role, users)
  }

  function ExportedRoles(roles: seq<string>, users: seq<string>): seq<string> {
    if roles == [] then []
    else
      var r := roles[|roles| - 1];
      ExportedRoles(roles[..|roles| - 1], users) + (if Exported(r, users) then [r] else [])
  }

  method FilterRoles(roles: seq<string>, users: seq<string>) returns (kept: seq<string>)
    ensures kept == ExportedRoles(roles, users)
  {
    kept := [];
    var i := 0;
    while i < |roles|
      invariant 0 <= i <= |roles|
      invariant kept == ExportedRoles(roles[..i], users)
    {
      assert roles[..i + 1][..i] == roles[..i];
      var role := roles[i];
      if "Global." <= role || "System$" <= role {
        i := i + 1;
        continue;
      }
      var own := ScanUserRole(role, users);
      if !own {
        kept := kept + [role];
      }
      i := i + 1;
    }
    assert roles[..i] == roles;
  }

  /** The exported roles are the listed ones that pass the filter, in
      listed order and as often as listed. */
  lemma {:induction false} ExportedRolesFilter(roles: seq<string>, users: seq<string>)
    ensures forall r :: r in ExportedRoles(roles, users) <==> r in roles && Exported(r, users)
    ensures multiset(ExportedRoles(roles, users)) <= multiset(roles)
    ensures IsFilter(ExportedRoles(roles, users), roles, ExportedBy(users))
  {
    if roles != [] {
      var init := roles[..|roles| - 1];
      ExportedRolesFilter(init, users);
      FilterSnoc(ExportedRoles(init, users), init, roles[|roles| - 1], ExportedBy(users));
      assert roles == init + [roles[|roles| - 1]];
    }
  }

  /** `describe role` reply: nothing usable, or the output list, of which the
      first element's permissions are read. */
  datatype RoleInfo = RoleInfo(permissions: seq<string>)
  datatype RoleReply = NoRole | RoleOutput(output: seq<RoleInfo>)

  /** `CREATE ROLE r;`, one `<permission> TO r;` per permission, then an
      empty line. */
  function RoleBlock(role: string, permissions: seq<string>): (lines: seq<string>)
    ensures |lines| == |permissions| + 2
    ensures lines[0] == "CREATE ROLE " + role + ";" && lines[|lines| - 1] == ""
    ensures forall k :: 0 <= k < |permissions| ==> lines[k + 1] == permissions[k] + " TO " + role + ";"
  {
    ["CREATE ROLE " + role + ";"]
      + seq(|permissions|, k requires 0 <= k < |permissions| => permissions[k] + " TO " + role + ";")
      + [""]
  }

  function RoleLines(role: string, reply: RoleReply): seq<string> {
    match reply
    case NoRole => []
    case RoleOutput(output) => if output == [] then [] else RoleBlock(role, output[0].permissions)
  }

  function LinesFor(roles: seq<string>, describe: string -> RoleReply): seq<string> {
    if roles == [] then []
    else
      var r := roles[|roles| - 1];
      LinesFor(roles[..|roles| - 1], describe) + RoleLines(r, describe(r))
  }

  /** The lines are as many as the described roles' blocks hold. */
  lemma {:induction false} LinesForCount(roles: seq<string>, describe: string -> RoleReply)
    ensures |LinesFor(roles, describe)| == BlockSizes(roles, describe)
  {
    if roles != [] {
      LinesForCount(roles[..|roles| - 1], describe);
    }
  }

  function BlockSizes(roles: seq<string>, describe: string -> RoleReply): nat {
    if roles == [] then 0
    else
      var r := roles[|roles| - 1];
      var d := describe(r);
      BlockSizes(roles[..|roles| - 1], describe)
        + (if d.RoleOutput? && d.output != [] then |d.output[0].permissions| + 2 else 0)
  }

  /** `export_roles`: no text when no role is listed, the empty text when
      every role is filtered out, and otherwise the lines of the described
      roles joined by newlines. */
  method ExportRoles(listing: seq<Json>, users: seq<string>, describe: string -> RoleReply)
    returns (r: Option<string>)
    ensures r.None? <==> NamesUnder(listing, "role") == []
    ensures r.Some? && ExportedRoles(NamesUnder(listing, "role"), users) == [] ==> r.value == ""
    ensures r.Some? ==> r.value == Join(LinesFor(ExportedRoles(NamesUnder(listing, "role"), users), describe), "\n")
  {
    var names := CollectNames(listing, "role");
    if names == [] {
      return None;
    }
    var kept := FilterRoles(names, users);
    if kept == [] {
      return Some("");
    }
    var lines := RoleStatements(kept, describe);
    r := Some(Join(lines, "\n"));
  }

  /** Describes each role in turn and adds its block; a role whose
      description fails or is empty adds nothing. */
  method RoleStatements(roles: seq<string>, describe: string -> RoleReply) returns (lines: seq<string>)
    ensures lines == LinesFor(roles, describe)
  {
    lines := [];
    var i := 0;
    while i < |roles|
      invariant 0 <= i <= |roles|
      invariant lines == LinesFor(roles[..i], describe)
    {
      assert roles[..i + 1][..i] == roles[..i];
      var reply := describe(roles[i]);
      if reply.RoleOutput? && reply.output != [] {
        lines := lines + RoleBlock(roles[i], reply.output[0].permissions);
      }
      i := i + 1;
    }
    assert roles[..i] == roles;
  }
}
